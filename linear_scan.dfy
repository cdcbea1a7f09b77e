/**
 * The rules of the IR's linear-scan register allocator
 * (register_alloc_pass.cpp), as functions on values: live intervals and
 * their order, the first-clear search of a register mask, the search for
 * a free spill slot or slot pair, the expiry of active intervals and one
 * allocation step.  The classes that run these rules as methods are in
 * module RegisterAllocPass.
 *
 * A mask or the spill-slot vector is a `seq<bool>`: a set entry is taken.
 * Where the source hands out a spill slot or records the live registers,
 * the functions take a flag `fixed`: false follows the code as written,
 * true the corrected behaviour (see the findings in README.md).
 */
module LinearScan {
  import opened Wrappers
  import opened RegAllocResult

  // ---------------------------------------------------------------- intervals

  /**
   * `LiveInterval`.  The source keeps a pointer to the defining
   * instruction and reads two things through it: its id (the key of the
   * allocation result) and whether its return type is a vector type
   * (`IsFloatValue`); `inst` and `vector` are those two.
   */
  datatype LiveInterval = LiveInterval(inst: nat, start: nat, end: nat, vector: bool)

  /** `operator<`: by start, then by end. */
  predicate Less(a: LiveInterval, b: LiveInterval)
  {
    if a.start == b.start then a.end < b.end else a.start < b.start
  }

  /** `operator<` is a strict weak order; two intervals are tied exactly when start and end agree. */
  lemma LessIsStrictWeakOrder(a: LiveInterval, b: LiveInterval, c: LiveInterval)
    ensures !Less(a, a)
    ensures Less(a, b) ==> !Less(b, a)
    ensures Less(a, b) && Less(b, c) ==> Less(a, c)
    ensures !Less(a, b) && !Less(b, a) <==> a.start == b.start && a.end == b.end
  {
  }

  /** Sorted for `operator<`: no interval is less than one before it. */
  predicate Sorted(s: seq<LiveInterval>)
  {
    forall i, j :: 0 <= i < j < |s| ==> !Less(s[j], s[i])
  }

  /** In a sorted sequence the starts never decrease: the allocator meets intervals in order of start. */
  lemma SortedStarts(s: seq<LiveInterval>, i: nat, j: nat)
    requires Sorted(s) && i <= j < |s|
    ensures s[i].start <= s[j].start
  {
    if i < j {
      assert !Less(s[j], s[i]);
    }
  }

  /** The head of a sorted sequence is not greater than any of its elements. */
  lemma HeadLeast(s: seq<LiveInterval>)
    requires Sorted(s) && |s| > 0
    ensures forall y :: y in s ==> !Less(y, s[0])
  {
    forall y | y in s
      ensures !Less(y, s[0])
    {
      var k :| 0 <= k < |s| && s[k] == y;
      if k > 0 {
        assert !Less(s[k], s[0]);
      }
    }
  }

  /** Putting an interval no other is less than in front keeps a sequence sorted. */
  lemma SortedPrepend(x: LiveInterval, t: seq<LiveInterval>)
    requires Sorted(t)
    requires forall y :: y in t ==> !Less(y, x)
    ensures Sorted([x] + t)
  {
    var r := [x] + t;
    forall i, j | 0 <= i < j < |r|
      ensures !Less(r[j], r[i])
    {
      if i > 0 {
        assert r[i] == t[i - 1] && r[j] == t[j - 1];
      } else {
        assert r[j] == t[j - 1];
        assert r[j] in t;
      }
    }
  }

  /** One insertion step: `x` goes before the first element that is not less than it. */
  function Insert(x: LiveInterval, s: seq<LiveInterval>): (r: seq<LiveInterval>)
    requires Sorted(s)
    ensures Sorted(r)
    ensures multiset(r) == multiset(s) + multiset{x}
  {
    if s == [] then [x]
    else if !Less(s[0], x) then
      HeadLeast(s);
      SortedPrepend(x, s);
      [x] + s
    else
      var t := Insert(x, s[1..]);
      assert s == [s[0]] + s[1..];
      HeadLeast(s);
      assert forall y :: y in t ==> y in multiset(t);
      assert forall y :: y in t ==> y == x || y in s[1..];
      SortedPrepend(s[0], t);
      [s[0]] + t
  }

  /**
   * `std::sort(live_interval)`: the result is sorted and holds the same
   * intervals, each as often as before.  `std::sort` leaves the order of
   * intervals that tie on (start, end) unspecified; the insertion order
   * used here is one admissible choice, and only the sortedness and the
   * permutation are promised.
   */
  function SortIntervals(s: seq<LiveInterval>): (r: seq<LiveInterval>)
    ensures Sorted(r)
    ensures multiset(r) == multiset(s)
    ensures forall a :: a in r <==> a in s
  {
    if s == [] then []
    else
      assert s == s[..|s| - 1] + [s[|s| - 1]];
      var r := Insert(s[|s| - 1], SortIntervals(s[..|s| - 1]));
      SameMembers(r, s);
      r
  }

  /** Sequences with the same multiset have the same members. */
  lemma SameMembers(r: seq<LiveInterval>, s: seq<LiveInterval>)
    requires multiset(r) == multiset(s)
    ensures forall a :: a in r <==> a in s
  {
    forall a
      ensures a in r <==> a in s
    {
      assert a in r <==> a in multiset(r);
      assert a in s <==> a in multiset(s);
    }
  }

  // ---------------------------------------------------------------- masks and slots

  /** `GetFirstClear`: the lowest clear index, or -1 when every entry is set. */
  function FirstClear(m: seq<bool>): (r: int)
    ensures -1 <= r < |m|
    ensures r >= 0 ==> !m[r] && forall k :: 0 <= k < r ==> m[k]
    ensures r < 0 ==> forall k :: 0 <= k < |m| ==> m[k]
  {
    if m == [] then -1
    else if !m[0] then 0
    else
      var t := FirstClear(m[1..]);
      assert forall k :: 1 <= k < |m| ==> m[k] == m[1..][k - 1];
      if t < 0 then -1 else t + 1
  }

  /** The vector search of `SpillAtInterval` and `AllocVReg`: the lowest even `i` with `i` and `i + 1` both clear, or -1. */
  function FirstFreePair(m: seq<bool>): (r: int)
    ensures r >= 0 ==> r % 2 == 0 && r + 1 < |m| && !m[r] && !m[r + 1]
    ensures r >= 0 ==> forall k :: 0 <= k < r && k % 2 == 0 ==> m[k] || m[k + 1]
    ensures r < 0 ==> r == -1 && forall k :: 0 <= k && k + 1 < |m| && k % 2 == 0 ==> m[k] || m[k + 1]
  {
    if |m| < 2 then -1
    else if !m[0] && !m[1] then 0
    else
      var t := FirstFreePair(m[2..]);
      assert forall k :: 2 <= k < |m| ==> m[k] == m[2..][k - 2];
      if t < 0 then -1 else t + 2
  }

  /** `resize(size + n)`: n new clear entries at the end. */
  function Grow(slots: seq<bool>, n: nat): (r: seq<bool>)
    ensures |r| == |slots| + n
    ensures forall k :: 0 <= k < |slots| ==> r[k] == slots[k]
    ensures forall k :: |slots| <= k < |r| ==> !r[k]
  {
    slots + seq(n, _ => false)
  }

  /** A spill: the slot handed out, the new slot vector and the new `spill_slot_cursor`. */
  datatype Spill = Spill(slot: nat, slots: seq<bool>, cursor: nat)

  /** Marking a vector's slots: as written only `slot`, corrected `slot` and `slot + 1`. */
  function MarkPair(fixed: bool, s: seq<bool>, slot: nat): (r: seq<bool>)
    requires slot + 1 < |s|
    ensures |r| == |s| && r[slot]
    ensures forall k :: 0 <= k < |s| && k != slot && k != slot + 1 ==> r[k] == s[k]
    ensures r[slot + 1] == (fixed || s[slot + 1])
  {
    if fixed then s[slot := true][slot + 1 := true] else s[slot := true]
  }

  /**
   * `SpillAtInterval` (also `AllocVReg`, which follows the same rule).  A
   * vector takes the first free even pair, or else the vector grows by 2
   * (`GrowSpillStack` sets the cursor to the pre-growth size).  A scalar
   * takes the lowest clear slot, or else, as written, the slot at the
   * cursor before growing by 1; corrected, the slot at the old size.
   */
  function SpillAt(fixed: bool, slots: seq<bool>, cursor: nat, vector: bool): (r: Spill)
    requires cursor <= |slots|
    ensures r.cursor <= |r.slots| && r.slot < |r.slots| && r.slots[r.slot]
    ensures |slots| <= |r.slots| <= |slots| + 2
    ensures vector ==> r.slot + 1 < |r.slots|
  {
    if vector then
      var p := FirstFreePair(slots);
      if p >= 0 then Spill(p, MarkPair(fixed, slots, p), cursor)
      else Spill(|slots|, MarkPair(fixed, Grow(slots, 2), |slots|), |slots|)
    else
      var f := FirstClear(slots);
      if f >= 0 then Spill(f, slots[f := true], cursor)
      else if fixed then Spill(|slots|, Grow(slots, 1)[|slots| := true], |slots|)
      else Spill(cursor, Grow(slots, 1)[cursor := true], |slots|)
  }

  /**
   * The corrected spill hands out only slots that were clear (or new), the
   * lowest such slot or even pair when one exists, and marks exactly those.
   */
  lemma SpillFresh(slots: seq<bool>, cursor: nat, vector: bool)
    requires cursor <= |slots|
    ensures var r := SpillAt(true, slots, cursor, vector);
      && (r.slot >= |slots| || !slots[r.slot])
      && (vector ==> r.slot + 1 >= |slots| || !slots[r.slot + 1])
      && (forall k :: 0 <= k < |r.slots| ==>
            (r.slots[k] <==> (k < |slots| && slots[k]) || k == r.slot || (vector && k == r.slot + 1)))
      && (!vector && FirstClear(slots) >= 0 ==> r.slot == FirstClear(slots))
      && (vector && FirstFreePair(slots) >= 0 ==> r.slot == FirstFreePair(slots))
      && (!vector && FirstClear(slots) < 0 ==> r.slot == |slots|)
      && (vector && FirstFreePair(slots) < 0 ==> r.slot == |slots|)
  {
  }

  /**
   * As written, a scalar spill when every slot is taken returns the
   * cursor, the size before the previous growth: a slot that is taken.
   */
  lemma ScalarSpillAsWrittenReusesSlot(slots: seq<bool>, cursor: nat)
    requires cursor < |slots|
    requires forall k :: 0 <= k < |slots| ==> slots[k]
    ensures SpillAt(false, slots, cursor, false).slot == cursor
    ensures slots[SpillAt(false, slots, cursor, false).slot]
  {
  }

  /** As written, a vector spill leaves the pair's upper slot clear. */
  lemma VectorSpillAsWrittenLeavesUpperSlot(slots: seq<bool>, cursor: nat)
    requires cursor <= |slots|
    ensures var r := SpillAt(false, slots, cursor, true); !r.slots[r.slot + 1]
  {
  }

  /** Two scalar spills from an empty slot vector, as written, share slot 0. */
  lemma ScalarSpillsAsWrittenCollide()
    ensures var first := SpillAt(false, [], 0, false);
      var second := SpillAt(false, first.slots, first.cursor, false);
      first.slot == 0 && second.slot == 0
  {
    var first := SpillAt(false, [], 0, false);
    assert first == Spill(0, [true], 0);
    ScalarSpillAsWrittenReusesSlot(first.slots, first.cursor);
  }

  /** As written, a vector spill then a scalar spill from empty: the scalar gets slot 1, the vector's upper half. */
  lemma VectorThenScalarAsWrittenOverlap()
    ensures var first := SpillAt(false, [], 0, true);
      var second := SpillAt(false, first.slots, first.cursor, false);
      first.slot == 0 && second.slot == first.slot + 1
  {
    var first := SpillAt(false, [], 0, true);
    assert first == Spill(0, [true, false], 0);
  }

  // ---------------------------------------------------------------- expiry

  /** The allocator's resources: `active_gprs`, `active_fprs` and `spill_slots`. */
  datatype Resources = Resources(gprs: seq<bool>, fprs: seq<bool>, slots: seq<bool>)

  /** `FreeGPR`, `FreeFPR`, `FreeSpill`: the ASSERT that entry `i` is taken (None when it fails), then clear it. */
  function Free(m: seq<bool>, i: nat): (r: Option<seq<bool>>)
    ensures r.Some? <==> i < |m| && m[i]
    ensures r.Some? ==> |r.value| == |m| && !r.value[i]
    ensures r.Some? ==> forall k :: 0 <= k < |m| && k != i ==> r.value[k] == m[k]
  {
    if i < |m| && m[i] then Some(m[i := false]) else None
  }

  /**
   * Releasing one expired interval: its GPR or FPR by the kind recorded
   * for its id, otherwise its spill slot (looked up through `ValueMem`,
   * whose ASSERT on the kind gives None) and, for a vector, the next one.
   */
  function Release(res: Resources, entries: seq<Entry>, a: LiveInterval): (r: Option<Resources>)
    requires a.inst < |entries|
    ensures r.Some? && entries[a.inst].kind == Gpr ==>
      Free(res.gprs, entries[a.inst].slot).Some? && r.value == res.(gprs := Free(res.gprs, entries[a.inst].slot).value)
    ensures r.Some? && entries[a.inst].kind == Fpr ==>
      Free(res.fprs, entries[a.inst].slot).Some? && r.value == res.(fprs := Free(res.fprs, entries[a.inst].slot).value)
    ensures r.Some? ==> |r.value.gprs| == |res.gprs| && |r.value.fprs| == |res.fprs| && |r.value.slots| == |res.slots|
    ensures entries[a.inst].kind == Gpr ==> (r.Some? <==> Free(res.gprs, entries[a.inst].slot).Some?)
    ensures entries[a.inst].kind == Fpr ==> (r.Some? <==> Free(res.fprs, entries[a.inst].slot).Some?)
  {
    var e := entries[a.inst];
    if e.kind == Gpr then
      var g :- Free(res.gprs, e.slot);
      Some(res.(gprs := g))
    else if e.kind == Fpr then
      var f :- Free(res.fprs, e.slot);
      Some(res.(fprs := f))
    else
      var slot :- ValueOfKind(entries, a.inst, Mem);
      var s1 :- Free(res.slots, slot);
      if a.vector then
        var s2 :- Free(s1, slot + 1);
        Some(res.(slots := s2))
      else Some(res.(slots := s1))
  }

  /** The intervals of `s` that are still live at `start`, in their order. */
  function Unexpired(s: seq<LiveInterval>, start: nat): (r: seq<LiveInterval>)
    ensures forall a :: a in r <==> a in s && a.end >= start
    ensures |r| <= |s|
  {
    if s == [] then []
    else
      var t := Unexpired(s[..|s| - 1], start);
      assert s == s[..|s| - 1] + [s[|s| - 1]];
      if s[|s| - 1].end < start then t else t + [s[|s| - 1]]
  }

  /** The intervals of `s` that end before `start`. */
  function Expired(s: seq<LiveInterval>, start: nat): (r: seq<LiveInterval>)
    ensures forall a :: a in r <==> a in s && a.end < start
  {
    if s == [] then []
    else
      var t := Expired(s[..|s| - 1], start);
      assert s == s[..|s| - 1] + [s[|s| - 1]];
      if s[|s| - 1].end < start then t + [s[|s| - 1]] else t
  }

  /** What `ExpireOldIntervals` leaves: the remaining active list and the resources. */
  datatype Expiry = Expiry(lives: seq<LiveInterval>, res: Resources)

  ghost predicate Known(entries: seq<Entry>, s: seq<LiveInterval>)
  {
    forall a :: a in s ==> a.inst < |entries|
  }

  /**
   * `ExpireOldIntervals(current)`: front to back, every active interval
   * that ends before `start` is released and erased; None when a release
   * fails its ASSERT.
   */
  function Expire(res: Resources, entries: seq<Entry>, active: seq<LiveInterval>, start: nat): (r: Option<Expiry>)
    requires Known(entries, active)
    ensures r.Some? ==> r.value.lives == Unexpired(active, start)
    ensures r.Some? ==> r.value.res.slots == res.slots || exists a :: a in active && a.end < start && entries[a.inst].kind !in {Gpr, Fpr}
    ensures r.Some? ==> |r.value.res.gprs| == |res.gprs| && |r.value.res.fprs| == |res.fprs| && |r.value.res.slots| == |res.slots|
  {
    if active == [] then Some(Expiry([], res))
    else
      var init := active[..|active| - 1];
      var a := active[|active| - 1];
      assert a in active && forall b :: b in init ==> b in active;
      var ex :- Expire(res, entries, init, start);
      if a.end < start then
        var r1 :- Release(ex.res, entries, a);
        Some(Expiry(ex.lives, r1))
      else Some(Expiry(ex.lives + [a], ex.res))
  }

  // ---------------------------------------------------------------- what the active list holds

  /** No two intervals of `s` belong to the same instruction. */
  ghost predicate NoDup(s: seq<LiveInterval>)
  {
    forall i, j :: 0 <= i < j < |s| ==> s[i].inst != s[j].inst
  }

  /** An active interval holds a register of its class (FPR for vectors, GPR otherwise), and that register is taken. */
  ghost predicate Holds(entries: seq<Entry>, res: Resources, a: LiveInterval)
  {
    && a.inst < |entries|
    && var e := entries[a.inst];
    if a.vector then e.kind == Fpr && e.slot < |res.fprs| && res.fprs[e.slot]
    else e.kind == Gpr && e.slot < |res.gprs| && res.gprs[e.slot]
  }

  /**
   * The allocator's invariant on its active list: one interval per
   * instruction, each holding a taken register of its class, no two of
   * the same class holding the same register.
   */
  ghost predicate Valid(entries: seq<Entry>, res: Resources, active: seq<LiveInterval>)
  {
    && NoDup(active)
    && (forall a :: a in active ==> Holds(entries, res, a))
    && (forall a, b :: a in active && b in active && a.inst != b.inst && a.vector == b.vector ==>
          entries[a.inst].slot != entries[b.inst].slot)
  }

  /** Every interval of `s` is recorded as holding a register of its class. */
  ghost predicate Classed(entries: seq<Entry>, s: seq<LiveInterval>)
  {
    forall a :: a in s ==> a.inst < |entries| && entries[a.inst].kind == (if a.vector then Fpr else Gpr)
  }

  /** The registers of class `vector` that the intervals of `s` hold. */
  function RegsOf(entries: seq<Entry>, s: seq<LiveInterval>, vector: bool): (r: set<nat>)
    requires Known(entries, s)
    ensures forall x :: x in r <==> exists a :: a in s && a.vector == vector && entries[a.inst].slot == x
  {
    if s == [] then {}
    else
      var init := s[..|s| - 1];
      var a := s[|s| - 1];
      assert s == init + [a];
      RegsOf(entries, init, vector) + (if a.vector == vector then {entries[a.inst].slot} else {})
  }

  /** A mask with the entries in `regs` cleared. */
  function Clear(m: seq<bool>, regs: set<nat>): (r: seq<bool>)
    ensures |r| == |m|
    ensures forall k :: 0 <= k < |m| ==> r[k] == (m[k] && k !in regs)
  {
    seq(|m|, k requires 0 <= k < |m| => m[k] && k !in regs)
  }

  /** Appending an interval whose instruction is new keeps one interval per instruction. */
  lemma NoDupAppend(s: seq<LiveInterval>, x: LiveInterval)
    requires NoDup(s)
    requires forall b :: b in s ==> b.inst != x.inst
    ensures NoDup(s + [x])
  {
    var t := s + [x];
    forall i, j | 0 <= i < j < |t|
      ensures t[i].inst != t[j].inst
    {
      assert t[i] == s[i];
      if j == |s| {
        assert s[i] in s;
      } else {
        assert t[j] == s[j];
      }
    }
  }

  /** The intervals still live keep one interval per instruction. */
  lemma {:induction false} UnexpiredNoDup(s: seq<LiveInterval>, start: nat)
    requires NoDup(s)
    ensures NoDup(Unexpired(s, start))
    decreases |s|
  {
    if s != [] {
      var init := s[..|s| - 1];
      var a := s[|s| - 1];
      assert NoDup(init) by {
        forall i, j | 0 <= i < j < |init|
          ensures init[i].inst != init[j].inst
        {
          assert init[i] == s[i] && init[j] == s[j];
        }
      }
      UnexpiredNoDup(init, start);
      if a.end >= start {
        forall b | b in Unexpired(init, start)
          ensures b.inst != a.inst
        {
          var k :| 0 <= k < |init| && init[k] == b;
          assert s[k] == b;
        }
        NoDupAppend(Unexpired(init, start), a);
      }
    }
  }

  /** Appending an interval that holds its own register keeps the invariant. */
  lemma ValidAppend(entries: seq<Entry>, res: Resources, s: seq<LiveInterval>, a: LiveInterval)
    requires Valid(entries, res, s) && Holds(entries, res, a)
    requires forall b :: b in s ==> b.inst != a.inst && (b.vector == a.vector ==> entries[b.inst].slot != entries[a.inst].slot)
    ensures Valid(entries, res, s + [a])
  {
    NoDupAppend(s, a);
  }

  /** Clearing the register of an interval outside the list keeps the invariant of the list. */
  lemma ValidAfterRelease(entries: seq<Entry>, res: Resources, s: seq<LiveInterval>, a: LiveInterval)
    requires Valid(entries, res, s) && Holds(entries, res, a)
    requires forall b :: b in s ==> b.inst != a.inst && (b.vector == a.vector ==> entries[b.inst].slot != entries[a.inst].slot)
    ensures Release(res, entries, a).Some?
    ensures Valid(entries, Release(res, entries, a).value, s)
  {
    var r1 := Release(res, entries, a).value;
    forall b | b in s
      ensures Holds(entries, r1, b)
    {
      assert Holds(entries, res, b);
    }
  }

  /** The interval list without its last element keeps the invariant, and the last instruction is not in it. */
  lemma ValidInit(entries: seq<Entry>, res: Resources, active: seq<LiveInterval>)
    requires Valid(entries, res, active) && active != []
    ensures var init := active[..|active| - 1];
      && Valid(entries, res, init)
      && (forall b :: b in init ==> b in active && b.inst != active[|active| - 1].inst)
  {
    var init := active[..|active| - 1];
    var a := active[|active| - 1];
    forall i, j | 0 <= i < j < |init|
      ensures init[i].inst != init[j].inst
    {
      assert init[i] == active[i] && init[j] == active[j];
    }
    forall b | b in init
      ensures b in active && b.inst != a.inst
    {
      var k :| 0 <= k < |init| && init[k] == b;
      assert active[k] == b;
    }
  }

  /** The registers held after appending one interval. */
  lemma RegsOfAppend(entries: seq<Entry>, s: seq<LiveInterval>, a: LiveInterval, vector: bool)
    requires Known(entries, s + [a])
    ensures Known(entries, s)
    ensures RegsOf(entries, s + [a], vector) == RegsOf(entries, s, vector) + (if a.vector == vector then {entries[a.inst].slot} else {})
  {
    assert forall b :: b in s ==> b in s + [a];
    assert (s + [a])[..|s|] == s;
  }

  /** Clearing one more register. */
  lemma ClearOneMore(m: seq<bool>, regs: set<nat>, x: nat)
    requires x < |m|
    ensures Clear(m, regs)[x := false] == Clear(m, regs + {x})
  {
  }

  /** Expiring the intervals before the last one leaves the last one's register taken. */
  lemma LastStillHeld(res: Resources, entries: seq<Entry>, active: seq<LiveInterval>, start: nat)
    requires Valid(entries, res, active) && active != []
    ensures Known(entries, active[..|active| - 1])
    ensures var r := Expire(res, entries, active[..|active| - 1], start);
      r.Some? ==> Holds(entries, r.value.res, active[|active| - 1])
  {
    var init := active[..|active| - 1];
    var a := active[|active| - 1];
    ValidInit(entries, res, active);
    assert Classed(entries, init) by {
      forall b | b in init
        ensures b.inst < |entries| && entries[b.inst].kind == (if b.vector then Fpr else Gpr)
      {
        assert Holds(entries, res, b);
      }
    }
    ExpireClears(res, entries, init, start);
    assert Holds(entries, res, a);
    assert entries[a.inst].slot !in RegsOf(entries, Expired(init, start), a.vector);
  }

  /**
   * Under the invariant, `ExpireOldIntervals` passes every ASSERT, keeps
   * the invariant on what remains and leaves the spill slots alone.
   */
  lemma {:induction false} ExpireKeepsValid(res: Resources, entries: seq<Entry>, active: seq<LiveInterval>, start: nat)
    requires Valid(entries, res, active)
    ensures Known(entries, active)
    ensures var r := Expire(res, entries, active, start);
      r.Some? && Valid(entries, r.value.res, r.value.lives) && r.value.res.slots == res.slots
    decreases |active|
  {
    if active != [] {
      var init := active[..|active| - 1];
      var a := active[|active| - 1];
      SplitLast(active);
      ValidInit(entries, res, active);
      ExpireKeepsValid(res, entries, init, start);
      ExpireLastValid(res, entries, active, start);
    }
  }

  /** The last interval's part of `ExpireKeepsValid`, given the facts for the others. */
  lemma ExpireLastValid(res: Resources, entries: seq<Entry>, active: seq<LiveInterval>, start: nat)
    requires Valid(entries, res, active) && active != []
    requires var init := active[..|active| - 1];
      Known(entries, init) &&
      var ex := Expire(res, entries, init, start);
      ex.Some? && Valid(entries, ex.value.res, ex.value.lives) && ex.value.res.slots == res.slots
    ensures Known(entries, active)
    ensures var r := Expire(res, entries, active, start);
      r.Some? && Valid(entries, r.value.res, r.value.lives) && r.value.res.slots == res.slots
  {
    if active[|active| - 1].end < start {
      ExpireLastDropped(res, entries, active, start);
    } else {
      ExpireLastKept(res, entries, active, start);
    }
  }

  /** `ExpireLastValid` when the last interval has ended: it is released. */
  lemma ExpireLastDropped(res: Resources, entries: seq<Entry>, active: seq<LiveInterval>, start: nat)
    requires Valid(entries, res, active) && active != []
    requires var init := active[..|active| - 1];
      Known(entries, init) &&
      var ex := Expire(res, entries, init, start);
      ex.Some? && Valid(entries, ex.value.res, ex.value.lives) && ex.value.res.slots == res.slots
    requires active[|active| - 1].end < start
    ensures Known(entries, active)
    ensures var r := Expire(res, entries, active, start);
      r.Some? && Valid(entries, r.value.res, r.value.lives) && r.value.res.slots == res.slots
  {
    var init := active[..|active| - 1];
    var a := active[|active| - 1];
    SplitLast(active);
    ValidInit(entries, res, active);
    var ex := Expire(res, entries, init, start).value;
    assert forall b :: b in ex.lives ==> b in init;
    LastStillHeld(res, entries, active, start);
    ValidAfterRelease(entries, ex.res, ex.lives, a);
  }

  /** `ExpireLastValid` when the last interval is still live: it stays. */
  lemma ExpireLastKept(res: Resources, entries: seq<Entry>, active: seq<LiveInterval>, start: nat)
    requires Valid(entries, res, active) && active != []
    requires var init := active[..|active| - 1];
      Known(entries, init) &&
      var ex := Expire(res, entries, init, start);
      ex.Some? && Valid(entries, ex.value.res, ex.value.lives) && ex.value.res.slots == res.slots
    requires active[|active| - 1].end >= start
    ensures Known(entries, active)
    ensures var r := Expire(res, entries, active, start);
      r.Some? && Valid(entries, r.value.res, r.value.lives) && r.value.res.slots == res.slots
  {
    var init := active[..|active| - 1];
    var a := active[|active| - 1];
    SplitLast(active);
    ValidInit(entries, res, active);
    var ex := Expire(res, entries, init, start).value;
    assert forall b :: b in ex.lives ==> b in init;
    LastStillHeld(res, entries, active, start);
    ValidAppend(entries, ex.res, ex.lives, a);
  }

  /**
   * Under the invariant, `ExpireOldIntervals` clears exactly the registers
   * of the intervals that ended before `start`.
   */
  lemma {:induction false} ExpireClears(res: Resources, entries: seq<Entry>, active: seq<LiveInterval>, start: nat)
    requires Classed(entries, active)
    ensures Known(entries, active)
    ensures var r := Expire(res, entries, active, start);
      r.Some? ==>
      r.value.res == Resources(Clear(res.gprs, RegsOf(entries, Expired(active, start), false)),
                               Clear(res.fprs, RegsOf(entries, Expired(active, start), true)),
                               res.slots)
    decreases |active|
  {
    if active == [] {
      assert Clear(res.gprs, {}) == res.gprs;
      assert Clear(res.fprs, {}) == res.fprs;
    } else {
      var init := active[..|active| - 1];
      var a := active[|active| - 1];
      SplitLast(active);
      assert forall b :: b in init ==> b in active;
      ExpireClears(res, entries, init, start);
      if Expire(res, entries, active, start).Some? {
        if a.end < start {
          ExpireClearsDropped(res, entries, active, start);
        } else {
          assert Expired(active, start) == Expired(init, start);
        }
      }
    }
  }

  /** `ExpireClears` when the last interval has ended, given the equation for the others. */
  lemma ExpireClearsDropped(res: Resources, entries: seq<Entry>, active: seq<LiveInterval>, start: nat)
    requires Classed(entries, active) && active != [] && active[|active| - 1].end < start
    requires var init := active[..|active| - 1];
      && Known(entries, init)
      && var r := Expire(res, entries, init, start);
      r.Some? ==>
      r.value.res == Resources(Clear(res.gprs, RegsOf(entries, Expired(init, start), false)),
                               Clear(res.fprs, RegsOf(entries, Expired(init, start), true)),
                               res.slots)
    requires Known(entries, active) && Expire(res, entries, active, start).Some?
    ensures var r := Expire(res, entries, active, start);
      r.value.res == Resources(Clear(res.gprs, RegsOf(entries, Expired(active, start), false)),
                               Clear(res.fprs, RegsOf(entries, Expired(active, start), true)),
                               res.slots)
  {
    var init := active[..|active| - 1];
    var a := active[|active| - 1];
    SplitLast(active);
    var gone := Expired(init, start);
    assert Expired(active, start) == gone + [a];
    RegsOfAppend(entries, gone, a, false);
    RegsOfAppend(entries, gone, a, true);
    var ex := Expire(res, entries, init, start);
    assert ex.Some? && Expire(res, entries, active, start) == Some(Expiry(ex.value.lives, Release(ex.value.res, entries, a).value));
    ReleaseClears(res, entries, a, RegsOf(entries, gone, false), RegsOf(entries, gone, true));
  }

  /** One more element of a prefix: its front is the shorter prefix. */
  lemma TakeStep(s: seq<LiveInterval>, k: nat)
    requires k < |s|
    ensures s[..k + 1][..k] == s[..k] && s[..k + 1][k] == s[k]
    ensures s[..k + 1] == s[..k] + [s[k]]
    ensures forall a :: a in s[..k + 1] ==> a in s
  {
  }

  /** Expiring one more interval that is still live keeps it, after the survivors. */
  lemma ExpireSnocKeep(res: Resources, entries: seq<Entry>, s: seq<LiveInterval>, a: LiveInterval, start: nat)
    requires Known(entries, s + [a]) && a.end >= start
    ensures Known(entries, s)
    ensures Expire(res, entries, s, start).Some? ==>
      var ex := Expire(res, entries, s, start).value;
      Expire(res, entries, s + [a], start) == Some(Expiry(ex.lives + [a], ex.res))
  {
    assert (s + [a])[..|s|] == s;
    assert forall b :: b in s ==> b in s + [a];
  }

  /** Expiring one more interval that has ended releases it. */
  lemma ExpireSnocDrop(res: Resources, entries: seq<Entry>, s: seq<LiveInterval>, a: LiveInterval, start: nat)
    requires Known(entries, s + [a]) && a.end < start
    ensures Known(entries, s) && a.inst < |entries|
    ensures Expire(res, entries, s, start).Some? ==>
      var ex := Expire(res, entries, s, start).value;
      var r1 := Release(ex.res, entries, a);
      Expire(res, entries, s + [a], start) == if r1.None? then None else Some(Expiry(ex.lives, r1.value))
  {
    assert (s + [a])[..|s|] == s;
    assert forall b :: b in s ==> b in s + [a];
    assert a in s + [a];
  }

  /** Once expiring a prefix fails, expiring the whole list fails. */
  lemma {:induction false} ExpireNoneExtends(res: Resources, entries: seq<Entry>, active: seq<LiveInterval>, k: nat, start: nat)
    requires Known(entries, active) && k <= |active|
    requires Expire(res, entries, active[..k], start).None?
    ensures Expire(res, entries, active, start).None?
    decreases |active| - k
  {
    if k < |active| {
      TakeStep(active, k);
      ExpireNoneExtends(res, entries, active, k + 1, start);
    } else {
      assert active[..k] == active;
    }
  }

  /** A non-empty list is its front followed by its last element. */
  lemma SplitLast(s: seq<LiveInterval>)
    requires s != []
    ensures s == s[..|s| - 1] + [s[|s| - 1]]
  {
  }

  /** Releasing an interval of its class clears one more register from the masks. */
  lemma ReleaseClears(res: Resources, entries: seq<Entry>, a: LiveInterval, gs: set<nat>, fs: set<nat>)
    requires a.inst < |entries| && entries[a.inst].kind == (if a.vector then Fpr else Gpr)
    requires Release(Resources(Clear(res.gprs, gs), Clear(res.fprs, fs), res.slots), entries, a).Some?
    ensures Release(Resources(Clear(res.gprs, gs), Clear(res.fprs, fs), res.slots), entries, a).value
      == Resources(Clear(res.gprs, gs + (if a.vector then {} else {entries[a.inst].slot})),
                   Clear(res.fprs, fs + (if a.vector then {entries[a.inst].slot} else {})),
                   res.slots)
  {
    var x := entries[a.inst].slot;
    if a.vector {
      ClearOneMore(res.fprs, fs, x);
      assert gs + {} == gs;
    } else {
      ClearOneMore(res.gprs, gs, x);
      assert fs + {} == fs;
    }
  }

  // ---------------------------------------------------------------- one allocation step

  /** The allocation loop's state: the allocation result, the resources, `active_lives` and `spill_slot_cursor`. */
  datatype AllocState = AllocState(entries: seq<Entry>, res: Resources, active: seq<LiveInterval>, cursor: nat)

  /** The state's indexes are in range: active ids in the result table, the cursor within the slot vector. */
  ghost predicate Fits(st: AllocState)
  {
    Known(st.entries, st.active) && st.cursor <= |st.res.slots|
  }

  /** `MapRegister` / `MapMemSpill`: entry `id` gets `kind` and `slot`; every other entry and the dirty masks stay. */
  function Place(entries: seq<Entry>, id: nat, kind: Kind, slot: nat): (r: seq<Entry>)
    requires id < |entries|
    ensures |r| == |entries| && r[id].kind == kind && r[id].slot == slot
    ensures r[id].dirtyGprs == entries[id].dirtyGprs && r[id].dirtyFprs == entries[id].dirtyFprs
    ensures forall k :: 0 <= k < |entries| && k != id ==> r[k] == entries[k]
  {
    entries[id := entries[id].(kind := kind, slot := slot)]
  }

  /**
   * `SetActiveRegs(id, active_fprs, active_gprs)`.  The callee's
   * parameters are (gprs, fprs), so as written the GPR mask is recorded as
   * the dirty FPRs and the FPR mask as the dirty GPRs; corrected, each
   * mask lands in its own field.
   */
  function Dirty(fixed: bool, entries: seq<Entry>, id: nat, res: Resources): (r: seq<Entry>)
    requires id < |entries|
    ensures |r| == |entries| && r[id].kind == entries[id].kind && r[id].slot == entries[id].slot
    ensures fixed ==> r[id].dirtyGprs == res.gprs && r[id].dirtyFprs == res.fprs
    ensures !fixed ==> r[id].dirtyGprs == res.fprs && r[id].dirtyFprs == res.gprs
    ensures forall k :: 0 <= k < |entries| && k != id ==> r[k] == entries[k]
  {
    var gprs := if fixed then res.gprs else res.fprs;
    var fprs := if fixed then res.fprs else res.gprs;
    entries[id := entries[id].(dirtyGprs := gprs, dirtyFprs := fprs)]
  }

  /**
   * One pass of the allocation loop: expire, then take the lowest free
   * register of the interval's class and append the interval to the
   * active list, or else spill it; then record the live registers.
   */
  function Step(fixed: bool, st: AllocState, iv: LiveInterval): (r: Option<AllocState>)
    requires Fits(st) && iv.inst < |st.entries|
    ensures r.Some? ==> Fits(r.value) && |r.value.entries| == |st.entries|
  {
    var ex :- Expire(st.res, st.entries, st.active, iv.start);
    var res := ex.res;
    var alloc := FirstClear(if iv.vector then res.fprs else res.gprs);
    var placed :=
      if alloc >= 0 && iv.vector then
        AllocState(Place(st.entries, iv.inst, Fpr, alloc), res.(fprs := res.fprs[alloc := true]), ex.lives + [iv], st.cursor)
      else if alloc >= 0 then
        AllocState(Place(st.entries, iv.inst, Gpr, alloc), res.(gprs := res.gprs[alloc := true]), ex.lives + [iv], st.cursor)
      else
        var sp := SpillAt(fixed, res.slots, st.cursor, iv.vector);
        AllocState(Place(st.entries, iv.inst, Mem, sp.slot), res.(slots := sp.slots), ex.lives, sp.cursor);
    Some(placed.(entries := Dirty(fixed, placed.entries, iv.inst, placed.res)))
  }

  /** The allocation loop over intervals in the given order (the sorted `live_interval`). */
  function Run(fixed: bool, st: AllocState, ivs: seq<LiveInterval>): (r: Option<AllocState>)
    requires Fits(st) && Known(st.entries, ivs)
    ensures r.Some? ==> Fits(r.value) && |r.value.entries| == |st.entries|
    decreases |ivs|
  {
    if ivs == [] then Some(st)
    else
      assert forall a :: a in ivs[..|ivs| - 1] ==> a in ivs;
      var st0 :- Run(fixed, st, ivs[..|ivs| - 1]);
      Step(fixed, st0, ivs[|ivs| - 1])
  }

  /** Every entry that is set in `m` is set in `n`. */
  ghost predicate Within(m: seq<bool>, n: seq<bool>)
  {
    |m| == |n| && forall k :: 0 <= k < |m| && m[k] ==> n[k]
  }

  /** The invariant survives a change of table and resources that keeps the listed intervals' entries and only sets bits. */
  lemma ValidTransport(entries: seq<Entry>, res: Resources, entries': seq<Entry>, res': Resources, s: seq<LiveInterval>)
    requires Valid(entries, res, s) && |entries'| == |entries|
    requires forall a :: a in s ==> entries'[a.inst].kind == entries[a.inst].kind && entries'[a.inst].slot == entries[a.inst].slot
    requires Within(res.gprs, res'.gprs) && Within(res.fprs, res'.fprs)
    ensures Valid(entries', res', s)
  {
    forall a | a in s
      ensures Holds(entries', res', a)
    {
      assert Holds(entries, res, a);
    }
  }

  /** The mask of the interval's class once the expired intervals are released. */
  function ClassMask(res: Resources, vector: bool): seq<bool>
  {
    if vector then res.fprs else res.gprs
  }

  /** What `StepKeepsValid` promises about one step. */
  ghost predicate StepOk(st: AllocState, iv: LiveInterval, r: Option<AllocState>)
    requires Fits(st) && iv.inst < |st.entries|
  {
    && r.Some?
    && |r.value.entries| == |st.entries|
    && Valid(r.value.entries, r.value.res, r.value.active)
    && (forall k :: 0 <= k < |st.entries| && k != iv.inst ==>
          r.value.entries[k].kind == st.entries[k].kind && r.value.entries[k].slot == st.entries[k].slot)
    && r.value.entries[iv.inst].kind in {Mem, if iv.vector then Fpr else Gpr}
    && r.value.active == Unexpired(st.active, iv.start) + (if r.value.entries[iv.inst].kind == Mem then [] else [iv])
  }

  /** The resources after taking register `alloc` of the interval's class. */
  function Take(res: Resources, vector: bool, alloc: nat): Resources
    requires alloc < |ClassMask(res, vector)|
  {
    if vector then res.(fprs := res.fprs[alloc := true]) else res.(gprs := res.gprs[alloc := true])
  }

  /** The state a step reaches when register `alloc` is free. */
  lemma StepAllocatesResult(fixed: bool, st: AllocState, iv: LiveInterval)
    requires Fits(st) && iv.inst < |st.entries|
    requires var ex := Expire(st.res, st.entries, st.active, iv.start);
      ex.Some? && FirstClear(ClassMask(ex.value.res, iv.vector)) >= 0
    ensures var ex := Expire(st.res, st.entries, st.active, iv.start).value;
      var alloc := FirstClear(ClassMask(ex.res, iv.vector));
      var res1 := Take(ex.res, iv.vector, alloc);
      Step(fixed, st, iv) ==
        Some(AllocState(Dirty(fixed, Place(st.entries, iv.inst, if iv.vector then Fpr else Gpr, alloc), iv.inst, res1),
                        res1, ex.lives + [iv], st.cursor))
  {
  }

  /** A register that is clear in its mask is held by no interval of the list. */
  lemma FreeRegisterUnheld(entries: seq<Entry>, res: Resources, s: seq<LiveInterval>, vector: bool, alloc: nat)
    requires Valid(entries, res, s)
    requires alloc < |ClassMask(res, vector)| && !ClassMask(res, vector)[alloc]
    ensures forall b :: b in s && b.vector == vector ==> entries[b.inst].slot != alloc
  {
    forall b | b in s && b.vector == vector
      ensures entries[b.inst].slot != alloc
    {
      assert Holds(entries, res, b);
    }
  }

  /** The step when a register of the interval's class is free. */
  lemma StepAllocates(fixed: bool, st: AllocState, iv: LiveInterval)
    requires Valid(st.entries, st.res, st.active) && Fits(st) && iv.inst < |st.entries|
    requires forall a :: a in st.active ==> a.inst != iv.inst
    requires var ex := Expire(st.res, st.entries, st.active, iv.start);
      ex.Some? && FirstClear(ClassMask(ex.value.res, iv.vector)) >= 0
    ensures Step(fixed, st, iv).Some?
    ensures var r := Step(fixed, st, iv).value; Valid(r.entries, r.res, r.active)
  {
    ExpireKeepsValid(st.res, st.entries, st.active, iv.start);
    var ex := Expire(st.res, st.entries, st.active, iv.start).value;
    var res := ex.res;
    var alloc := FirstClear(ClassMask(res, iv.vector));
    StepAllocatesResult(fixed, st, iv);
    var r := Step(fixed, st, iv).value;
    var res1 := Take(res, iv.vector, alloc);
    assert forall b :: b in ex.lives ==> b in st.active;
    ValidTransport(st.entries, res, r.entries, res1, ex.lives);
    FreeRegisterUnheld(st.entries, res, ex.lives, iv.vector, alloc);
    ValidAppend(r.entries, res1, ex.lives, iv);
  }

  /** The step when every register of the interval's class is taken: a spill. */
  lemma StepSpills(fixed: bool, st: AllocState, iv: LiveInterval)
    requires Valid(st.entries, st.res, st.active) && Fits(st) && iv.inst < |st.entries|
    requires forall a :: a in st.active ==> a.inst != iv.inst
    requires var ex := Expire(st.res, st.entries, st.active, iv.start);
      ex.Some? && FirstClear(ClassMask(ex.value.res, iv.vector)) < 0
    ensures StepOk(st, iv, Step(fixed, st, iv))
    ensures var ex := Expire(st.res, st.entries, st.active, iv.start).value;
      var sp := SpillAt(fixed, st.res.slots, st.cursor, iv.vector);
      var r := Step(fixed, st, iv).value;
      r.res.slots == sp.slots && r.entries[iv.inst].slot == sp.slot && r.cursor == sp.cursor
  {
    ExpireKeepsValid(st.res, st.entries, st.active, iv.start);
    var ex := Expire(st.res, st.entries, st.active, iv.start).value;
    var res := ex.res;
    var r := Step(fixed, st, iv).value;
    var sp := SpillAt(fixed, res.slots, st.cursor, iv.vector);
    var e1 := Place(st.entries, iv.inst, Mem, sp.slot);
    assert r == AllocState(Dirty(fixed, e1, iv.inst, res.(slots := sp.slots)), res.(slots := sp.slots), ex.lives, sp.cursor);
    ValidTransport(st.entries, res, r.entries, r.res, ex.lives);
  }

  /**
   * One pass of the allocation loop keeps the invariant whatever `fixed`
   * is.  The interval gets a register of its class that no remaining
   * active interval holds, and joins the active list; or it is spilled,
   * which happens only when every register of its class is taken once
   * the expired intervals are released.  No other entry's kind or slot
   * changes.
   */
  lemma StepKeepsValid(fixed: bool, st: AllocState, iv: LiveInterval)
    requires Valid(st.entries, st.res, st.active) && Fits(st) && iv.inst < |st.entries|
    requires forall a :: a in st.active ==> a.inst != iv.inst
    ensures StepOk(st, iv, Step(fixed, st, iv))
    ensures var ex := Expire(st.res, st.entries, st.active, iv.start);
      ex.Some? && (Step(fixed, st, iv).value.entries[iv.inst].kind == Mem <==> FirstClear(ClassMask(ex.value.res, iv.vector)) < 0)
    ensures var r := Step(fixed, st, iv).value;
      var sp := SpillAt(fixed, st.res.slots, st.cursor, iv.vector);
      && (r.entries[iv.inst].kind != Mem ==> r.res.slots == st.res.slots && r.cursor == st.cursor)
      && (r.entries[iv.inst].kind == Mem ==> r.res.slots == sp.slots && r.entries[iv.inst].slot == sp.slot && r.cursor == sp.cursor)
  {
    ExpireKeepsValid(st.res, st.entries, st.active, iv.start);
    var ex := Expire(st.res, st.entries, st.active, iv.start).value;
    if FirstClear(ClassMask(ex.res, iv.vector)) >= 0 {
      StepAllocates(fixed, st, iv);
      StepAllocatesResult(fixed, st, iv);
    } else {
      StepSpills(fixed, st, iv);
    }
  }

  // ---------------------------------------------------------------- the whole loop

  /** Every processed interval is recorded as spilled or as holding a register of its class. */
  ghost predicate Classes(entries: seq<Entry>, done: seq<LiveInterval>)
  {
    forall p :: p in done ==> p.inst < |entries| && entries[p.inst].kind in {Mem, if p.vector then Fpr else Gpr}
  }

  /** Every processed interval with a register that is live at the last start is still active. */
  ghost predicate Tracked(st: AllocState, done: seq<LiveInterval>)
  {
    |done| > 0 ==>
      forall p :: p in done && p.inst < |st.entries| && st.entries[p.inst].kind != Mem && p.end >= done[|done| - 1].start ==>
        p in st.active
  }

  /**
   * Register separation: when an interval is still live at the start of
   * a later one (`end >= start`), and both got registers of the same
   * class, the registers differ.
   */
  ghost predicate Separated(entries: seq<Entry>, ivs: seq<LiveInterval>)
  {
    forall i, j :: 0 <= i < j < |ivs| && ivs[i].inst < |entries| && ivs[j].inst < |entries|
      && ivs[i].vector == ivs[j].vector && ivs[i].end >= ivs[j].start
      && entries[ivs[i].inst].kind != Mem && entries[ivs[j].inst].kind != Mem
      ==> entries[ivs[i].inst].slot != entries[ivs[j].inst].slot
  }

  /** What holds after the loop has processed the intervals `done`. */
  ghost predicate RunInv(st: AllocState, done: seq<LiveInterval>)
  {
    && Valid(st.entries, st.res, st.active)
    && (forall a :: a in st.active ==> a in done)
    && Classes(st.entries, done)
    && Tracked(st, done)
    && Separated(st.entries, done)
  }

  /** Dropping the last interval keeps a list sorted and free of repeated instructions, and the last instruction is new. */
  lemma InitOf(s: seq<LiveInterval>)
    requires Sorted(s) && NoDup(s) && s != []
    ensures var init := s[..|s| - 1];
      && Sorted(init) && NoDup(init)
      && (forall b :: b in init ==> b in s && b.inst != s[|s| - 1].inst && b.start <= s[|s| - 1].start)
  {
    var init := s[..|s| - 1];
    forall i, j | 0 <= i < j < |init|
      ensures !Less(init[j], init[i]) && init[i].inst != init[j].inst
    {
      assert init[i] == s[i] && init[j] == s[j];
    }
    forall b | b in init
      ensures b in s && b.inst != s[|s| - 1].inst && b.start <= s[|s| - 1].start
    {
      var k :| 0 <= k < |init| && init[k] == b;
      assert s[k] == b;
      SortedStarts(s, k, |s| - 1);
    }
  }

  /** One more step keeps `Tracked`. */
  lemma TrackedStep(st: AllocState, r: AllocState, done: seq<LiveInterval>, iv: LiveInterval)
    requires Fits(st) && iv.inst < |st.entries|
    requires Tracked(st, done) && StepOk(st, iv, Some(r))
    requires forall b :: b in done ==> b.inst != iv.inst && b.start <= iv.start
    ensures Tracked(r, done + [iv])
  {
    var d := done + [iv];
    forall p | p in d && p.inst < |r.entries| && r.entries[p.inst].kind != Mem && p.end >= d[|d| - 1].start
      ensures p in r.active
    {
      if p != iv {
        assert p in done;
        assert done[|done| - 1] in done;
        assert p in st.active;
      }
    }
  }

  /** One more step keeps `Separated`. */
  lemma SeparatedStep(st: AllocState, r: AllocState, done: seq<LiveInterval>, iv: LiveInterval)
    requires Fits(st) && iv.inst < |st.entries|
    requires Separated(st.entries, done) && Tracked(st, done) && StepOk(st, iv, Some(r))
    requires forall b :: b in done ==> b.inst != iv.inst && b.start <= iv.start
    ensures Separated(r.entries, done + [iv])
  {
    var d := done + [iv];
    forall i, j | 0 <= i < j < |d| && d[i].inst < |r.entries| && d[j].inst < |r.entries|
      && d[i].vector == d[j].vector && d[i].end >= d[j].start
      && r.entries[d[i].inst].kind != Mem && r.entries[d[j].inst].kind != Mem
      ensures r.entries[d[i].inst].slot != r.entries[d[j].inst].slot
    {
      assert d[i] == done[i] && d[i] in done;
      if j < |done| {
        assert d[j] == done[j];
      } else {
        assert done[|done| - 1] in done;
        assert d[i] in st.active;
        assert d[i] in r.active && iv in r.active;
      }
    }
  }

  /** One more step keeps `RunInv`. */
  lemma RunInvStep(fixed: bool, st: AllocState, done: seq<LiveInterval>, iv: LiveInterval)
    requires Fits(st) && iv.inst < |st.entries| && RunInv(st, done)
    requires forall b :: b in done ==> b.inst != iv.inst && b.start <= iv.start
    ensures Step(fixed, st, iv).Some? && RunInv(Step(fixed, st, iv).value, done + [iv])
  {
    StepKeepsValid(fixed, st, iv);
    var r := Step(fixed, st, iv).value;
    TrackedStep(st, r, done, iv);
    SeparatedStep(st, r, done, iv);
    assert forall a :: a in r.active ==> a in done + [iv];
    assert Classes(r.entries, done + [iv]);
  }

  /**
   * The allocation loop over sorted intervals of distinct instructions
   * passes every ASSERT, and two intervals that got registers of the same
   * class hold different registers whenever the earlier one is still live
   * at the start of the later one.  This holds as written (`fixed` plays
   * no part in register choice).
   */
  lemma {:induction false} RunSeparates(fixed: bool, st0: AllocState, ivs: seq<LiveInterval>)
    requires Fits(st0) && st0.active == [] && Known(st0.entries, ivs)
    requires Sorted(ivs) && NoDup(ivs)
    ensures Run(fixed, st0, ivs).Some?
    ensures RunInv(Run(fixed, st0, ivs).value, ivs)
    decreases |ivs|
  {
    if ivs != [] {
      var init := ivs[..|ivs| - 1];
      var iv := ivs[|ivs| - 1];
      SplitLast(ivs);
      InitOf(ivs);
      RunSeparates(fixed, st0, init);
      var st := Run(fixed, st0, init).value;
      RunInvStep(fixed, st, init, iv);
      assert Run(fixed, st0, ivs) == Step(fixed, st, iv);
    }
  }

  // ---------------------------------------------------------------- spill slots

  /** A spilled interval's slots are taken: its slot and, for a vector, the next. */
  ghost predicate Occupies(entries: seq<Entry>, slots: seq<bool>, p: LiveInterval)
  {
    && p.inst < |entries|
    && var x := entries[p.inst].slot;
    && x < |slots| && slots[x]
    && (p.vector ==> x + 1 < |slots| && slots[x + 1])
  }

  /** The slots of two spills do not overlap. */
  predicate Apart(x: nat, vx: bool, y: nat, vy: bool)
  {
    x != y && (vx ==> x + 1 != y) && (vy ==> y + 1 != x)
  }

  /** Every spilled interval occupies its slots, and no two spilled intervals share a slot. */
  ghost predicate SpillsApart(entries: seq<Entry>, slots: seq<bool>, done: seq<LiveInterval>)
  {
    && (forall p :: p in done && p.inst < |entries| && entries[p.inst].kind == Mem ==> Occupies(entries, slots, p))
    && (forall i, j :: 0 <= i < j < |done| && done[i].inst < |entries| && done[j].inst < |entries|
          && entries[done[i].inst].kind == Mem && entries[done[j].inst].kind == Mem
          ==> Apart(entries[done[i].inst].slot, done[i].vector, entries[done[j].inst].slot, done[j].vector))
  }

  /** Every slot taken in `slots` is taken in `slots'`. */
  ghost predicate Keeps(slots: seq<bool>, slots': seq<bool>)
  {
    |slots| <= |slots'| && forall k :: 0 <= k < |slots| && slots[k] ==> slots'[k]
  }

  /** The new table agrees with the old one on the processed intervals. */
  ghost predicate SameOn(entries: seq<Entry>, entries': seq<Entry>, done: seq<LiveInterval>)
  {
    forall p :: p in done && p.inst < |entries| ==>
      p.inst < |entries'| && entries'[p.inst].kind == entries[p.inst].kind && entries'[p.inst].slot == entries[p.inst].slot
  }

  /** `SpillsApart` survives a step that keeps the processed entries and the taken slots, for a new interval with a register. */
  lemma SpillsApartRegistered(entries: seq<Entry>, slots: seq<bool>, entries': seq<Entry>, slots': seq<bool>,
                              done: seq<LiveInterval>, iv: LiveInterval)
    requires SpillsApart(entries, slots, done) && Known(entries, done)
    requires SameOn(entries, entries', done) && Keeps(slots, slots')
    requires iv.inst < |entries'| && entries'[iv.inst].kind != Mem
    ensures SpillsApart(entries', slots', done + [iv])
  {
    var d := done + [iv];
    forall p | p in d && p.inst < |entries'| && entries'[p.inst].kind == Mem
      ensures Occupies(entries', slots', p)
    {
      assert p in done;
      assert Occupies(entries, slots, p);
    }
    forall i, j | 0 <= i < j < |d| && d[i].inst < |entries'| && d[j].inst < |entries'|
      && entries'[d[i].inst].kind == Mem && entries'[d[j].inst].kind == Mem
      ensures Apart(entries'[d[i].inst].slot, d[i].vector, entries'[d[j].inst].slot, d[j].vector)
    {
      assert d[i] == done[i] && d[i] in done;
      assert d[j] == done[j] && d[j] in done;
    }
  }

  /** `SpillsApart` survives a step that spills the new interval into slots that were free. */
  lemma SpillsApartSpilled(entries: seq<Entry>, slots: seq<bool>, entries': seq<Entry>, slots': seq<bool>,
                           done: seq<LiveInterval>, iv: LiveInterval)
    requires SpillsApart(entries, slots, done) && Known(entries, done)
    requires SameOn(entries, entries', done) && Keeps(slots, slots')
    requires iv.inst < |entries'| && entries'[iv.inst].kind == Mem && Occupies(entries', slots', iv)
    requires forall b :: b in done ==> b.inst != iv.inst
    requires var x := entries'[iv.inst].slot;
      (x >= |slots| || !slots[x]) && (iv.vector ==> x + 1 >= |slots| || !slots[x + 1])
    ensures SpillsApart(entries', slots', done + [iv])
  {
    var d := done + [iv];
    forall p | p in d && p.inst < |entries'| && entries'[p.inst].kind == Mem
      ensures Occupies(entries', slots', p)
    {
      if p != iv {
        assert p in done;
        assert Occupies(entries, slots, p);
      }
    }
    forall i, j | 0 <= i < j < |d| && d[i].inst < |entries'| && d[j].inst < |entries'|
      && entries'[d[i].inst].kind == Mem && entries'[d[j].inst].kind == Mem
      ensures Apart(entries'[d[i].inst].slot, d[i].vector, entries'[d[j].inst].slot, d[j].vector)
    {
      assert d[i] == done[i] && d[i] in done;
      if j < |done| {
        assert d[j] == done[j];
      } else {
        assert Occupies(entries, slots, d[i]);
      }
    }
  }

  /** One more corrected step keeps `SpillsApart`. */
  lemma SpillsApartStep(st: AllocState, done: seq<LiveInterval>, iv: LiveInterval)
    requires Fits(st) && iv.inst < |st.entries| && RunInv(st, done)
    requires SpillsApart(st.entries, st.res.slots, done)
    requires forall b :: b in done ==> b.inst != iv.inst
    ensures Step(true, st, iv).Some?
    ensures var r := Step(true, st, iv).value; SpillsApart(r.entries, r.res.slots, done + [iv])
  {
    StepKeepsValid(true, st, iv);
    var r := Step(true, st, iv).value;
    SpillFresh(st.res.slots, st.cursor, iv.vector);
    assert Known(st.entries, done);
    assert SameOn(st.entries, r.entries, done);
    assert Keeps(st.res.slots, r.res.slots);
    if r.entries[iv.inst].kind == Mem {
      SpillsApartSpilled(st.entries, st.res.slots, r.entries, r.res.slots, done, iv);
    } else {
      SpillsApartRegistered(st.entries, st.res.slots, r.entries, r.res.slots, done, iv);
    }
  }

  /**
   * With the corrected spill, the allocation loop over sorted intervals
   * of distinct instructions gives every spilled interval its own slots:
   * no two spilled intervals share a slot.
   */
  lemma {:induction false} RunSpillsApart(st0: AllocState, ivs: seq<LiveInterval>)
    requires Fits(st0) && st0.active == [] && Known(st0.entries, ivs)
    requires Sorted(ivs) && NoDup(ivs)
    ensures Run(true, st0, ivs).Some?
    ensures var r := Run(true, st0, ivs).value; SpillsApart(r.entries, r.res.slots, ivs)
    decreases |ivs|
  {
    RunSeparates(true, st0, ivs);
    if ivs != [] {
      var init := ivs[..|ivs| - 1];
      var iv := ivs[|ivs| - 1];
      SplitLast(ivs);
      InitOf(ivs);
      RunSpillsApart(st0, init);
      RunSeparates(true, st0, init);
      var st := Run(true, st0, init).value;
      SpillsApartStep(st, init, iv);
      assert Run(true, st0, ivs) == Step(true, st, iv);
    }
  }

  /**
   * As written, with no GPR to hand out, two scalar intervals that are
   * live at the same time are spilled to the same slot 0.
   */
  lemma RunAsWrittenSharesSlot(st0: AllocState, a: LiveInterval, b: LiveInterval)
    requires |st0.entries| >= 2 && st0.res.gprs == [] && st0.res.slots == [] && st0.active == [] && st0.cursor == 0
    requires a.inst == 0 && a.start == 0 && a.end == 5 && !a.vector
    requires b.inst == 1 && b.start == 1 && b.end == 5 && !b.vector
    ensures var r := Run(false, st0, [a, b]);
      && r.Some?
      && r.value.entries[0].kind == Mem && r.value.entries[1].kind == Mem
      && r.value.entries[0].slot == 0 && r.value.entries[1].slot == 0
      && !SpillsApart(r.value.entries, r.value.res.slots, [a, b])
  {
    assert [a, b][..1] == [a];
    assert [a][..0] == [];
    StepAsWrittenNoGprs(st0, a);
    var st1 := Step(false, st0, a).value;
    assert Run(false, st0, [a]) == Some(st1);
    StepAsWrittenNoGprs(st1, b);
    assert !Apart(0, false, 0, false);
  }

  /**
   * As written, with no GPRs, an empty active list, at most one slot, all
   * taken, and the cursor at 0, a scalar interval is spilled to slot 0.
   */
  lemma StepAsWrittenNoGprs(st: AllocState, a: LiveInterval)
    requires Fits(st) && a.inst < |st.entries| && !a.vector
    requires st.res.gprs == [] && st.active == [] && st.cursor == 0
    requires |st.res.slots| <= 1 && forall k :: 0 <= k < |st.res.slots| ==> st.res.slots[k]
    ensures Step(false, st, a).Some?
    ensures var r := Step(false, st, a).value;
      && r.entries[a.inst].kind == Mem && r.entries[a.inst].slot == 0
      && (forall k :: 0 <= k < |st.entries| && k != a.inst ==> r.entries[k] == st.entries[k])
      && r.res.gprs == [] && r.active == [] && r.cursor == |st.res.slots|
      && |r.res.slots| == |st.res.slots| + 1 && (forall k :: 0 <= k < |r.res.slots| ==> (r.res.slots[k] <==> k < |st.res.slots| || k == 0))
  {
    assert FirstClear([]) == -1;
    if st.res.slots != [] {
      assert FirstClear(st.res.slots) == -1 by {
        assert st.res.slots == [true] && [true][1..] == [];
      }
    }
  }

  /** As written, the entry's dirty GPRs are the FPR mask: they differ from the live GPRs whenever the two masks differ. */
  lemma DirtyAsWrittenSwapsMasks(entries: seq<Entry>, id: nat, res: Resources)
    requires id < |entries| && res.gprs != res.fprs
    ensures Dirty(false, entries, id, res)[id].dirtyGprs != res.gprs
    ensures Dirty(true, entries, id, res)[id].dirtyGprs == res.gprs
  {
  }

  // ---------------------------------------------------------------- virtual registers

  /**
   * `VRegisterAllocator`: each instruction's `VirRegID` (by instruction
   * id), `active_v_regs`, `active_lives` and `active_v_regs_cursor`.
   */
  datatype VState = VState(virRegs: map<nat, nat>, regs: seq<bool>, active: seq<LiveInterval>, cursor: nat)

  /** `active_v_regs[i] = false`. */
  function Unset(m: seq<bool>, i: nat): (r: seq<bool>)
    ensures |r| == |m|
    ensures forall k :: 0 <= k < |m| ==> r[k] == (m[k] && k != i)
  {
    if i < |m| then m[i := false] else m
  }

  /** Releasing an expired interval's virtual register, and the next one for a vector; no check that they were taken. */
  function VRelease(regs: seq<bool>, virRegs: map<nat, nat>, a: LiveInterval): (r: seq<bool>)
    ensures |r| == |regs|
  {
    if a.inst in virRegs then
      var x := virRegs[a.inst];
      var r1 := Unset(regs, x);
      if a.vector then Unset(r1, x + 1) else r1
    else regs
  }

  /** What `VRegisterAllocator::ExpireOldIntervals` leaves: the remaining list and `active_v_regs`. */
  datatype VExpiry = VExpiry(lives: seq<LiveInterval>, regs: seq<bool>)

  /** `VRegisterAllocator::ExpireOldIntervals(current)`: front to back, release and erase every interval that ended before `start`. */
  function VExpire(regs: seq<bool>, virRegs: map<nat, nat>, active: seq<LiveInterval>, start: nat): (r: VExpiry)
    ensures r.lives == Unexpired(active, start)
    ensures |r.regs| == |regs|
  {
    if active == [] then VExpiry([], regs)
    else
      var ex := VExpire(regs, virRegs, active[..|active| - 1], start);
      var a := active[|active| - 1];
      if a.end < start then VExpiry(ex.lives, VRelease(ex.regs, virRegs, a))
      else VExpiry(ex.lives + [a], ex.regs)
  }

  /**
   * One pass of `VRegisterAllocator::AllocateRegisters`: expire, append
   * the interval to the active list, and give it a virtual register by
   * the spill rule (`AllocVReg`).
   */
  function VStep(fixed: bool, st: VState, iv: LiveInterval): (r: VState)
    requires st.cursor <= |st.regs|
    ensures r.cursor <= |r.regs| && |st.regs| <= |r.regs|
    ensures r.active == Unexpired(st.active, iv.start) + [iv]
    ensures iv.inst in r.virRegs && forall k :: k in st.virRegs && k != iv.inst ==> k in r.virRegs && r.virRegs[k] == st.virRegs[k]
  {
    var ex := VExpire(st.regs, st.virRegs, st.active, iv.start);
    var sp := SpillAt(fixed, ex.regs, st.cursor, iv.vector);
    VState(st.virRegs[iv.inst := sp.slot], sp.slots, ex.lives + [iv], sp.cursor)
  }

  /** The loop of `VRegisterAllocator::AllocateRegisters` over intervals in the given order. */
  function VRun(fixed: bool, st: VState, ivs: seq<LiveInterval>): (r: VState)
    requires st.cursor <= |st.regs|
    ensures r.cursor <= |r.regs|
    decreases |ivs|
  {
    if ivs == [] then st
    else VStep(fixed, VRun(fixed, st, ivs[..|ivs| - 1]), ivs[|ivs| - 1])
  }

  /** Expiring one more interval: released when it has ended, kept after the survivors otherwise. */
  lemma VExpireSnoc(regs: seq<bool>, virRegs: map<nat, nat>, s: seq<LiveInterval>, a: LiveInterval, start: nat)
    ensures var ex := VExpire(regs, virRegs, s, start);
      VExpire(regs, virRegs, s + [a], start) ==
        if a.end < start then VExpiry(ex.lives, VRelease(ex.regs, virRegs, a)) else VExpiry(ex.lives + [a], ex.regs)
  {
    assert (s + [a])[..|s|] == s;
  }

  /** The slots of virtual register `x` are taken: `x` and, for a vector, `x + 1`. */
  ghost predicate Taken(regs: seq<bool>, x: nat, vector: bool)
  {
    x < |regs| && regs[x] && (vector ==> x + 1 < |regs| && regs[x + 1])
  }

  /** The virtual-register allocator's invariant: each active interval's registers are taken, and no two overlap. */
  ghost predicate VValid(virRegs: map<nat, nat>, regs: seq<bool>, active: seq<LiveInterval>)
  {
    && NoDup(active)
    && (forall a :: a in active ==> a.inst in virRegs && Taken(regs, virRegs[a.inst], a.vector))
    && (forall a, b :: a in active && b in active && a.inst != b.inst ==>
          Apart(virRegs[a.inst], a.vector, virRegs[b.inst], b.vector))
  }

  /** Releasing an interval outside the list keeps the invariant of the list. */
  lemma VValidAfterRelease(virRegs: map<nat, nat>, regs: seq<bool>, s: seq<LiveInterval>, a: LiveInterval)
    requires VValid(virRegs, regs, s) && a.inst in virRegs
    requires forall b :: b in s ==> b.inst != a.inst && Apart(virRegs[b.inst], b.vector, virRegs[a.inst], a.vector)
    ensures VValid(virRegs, VRelease(regs, virRegs, a), s)
  {
  }

  /** Appending an interval whose registers are taken and apart from the others keeps the invariant. */
  lemma VValidAppend(virRegs: map<nat, nat>, regs: seq<bool>, s: seq<LiveInterval>, a: LiveInterval)
    requires VValid(virRegs, regs, s) && a.inst in virRegs && Taken(regs, virRegs[a.inst], a.vector)
    requires forall b :: b in s ==> b.inst != a.inst && Apart(virRegs[b.inst], b.vector, virRegs[a.inst], a.vector)
    ensures VValid(virRegs, regs, s + [a])
  {
    NoDupAppend(s, a);
  }

  /** Expiry keeps the invariant on the intervals that remain. */
  lemma {:induction false} VExpireKeepsValid(regs: seq<bool>, virRegs: map<nat, nat>, active: seq<LiveInterval>, start: nat)
    requires VValid(virRegs, regs, active)
    ensures var r := VExpire(regs, virRegs, active, start); VValid(virRegs, r.regs, r.lives)
    decreases |active|
  {
    if active != [] {
      var init := active[..|active| - 1];
      var a := active[|active| - 1];
      SplitLast(active);
      assert NoDup(init) && forall b :: b in init ==> b in active && b.inst != a.inst by {
        InitNoDup(active);
      }
      VExpireKeepsValid(regs, virRegs, init, start);
      VExpireLast(regs, virRegs, active, start);
    }
  }

  /** Dropping the last interval keeps one interval per instruction, and the last instruction is not among the rest. */
  lemma InitNoDup(s: seq<LiveInterval>)
    requires NoDup(s) && s != []
    ensures NoDup(s[..|s| - 1])
    ensures forall b :: b in s[..|s| - 1] ==> b in s && b.inst != s[|s| - 1].inst
  {
    var init := s[..|s| - 1];
    forall i, j | 0 <= i < j < |init|
      ensures init[i].inst != init[j].inst
    {
      assert init[i] == s[i] && init[j] == s[j];
    }
    forall b | b in init
      ensures b in s && b.inst != s[|s| - 1].inst
    {
      var k :| 0 <= k < |init| && init[k] == b;
      assert s[k] == b;
    }
  }

  /** Expiring all but the last interval leaves the last one's registers taken. */
  lemma {:induction false} VExpireKeepsTaken(regs: seq<bool>, virRegs: map<nat, nat>, active: seq<LiveInterval>, start: nat, a: LiveInterval)
    requires VValid(virRegs, regs, active) && a.inst in virRegs && Taken(regs, virRegs[a.inst], a.vector)
    requires forall b :: b in active ==> b.inst != a.inst && Apart(virRegs[b.inst], b.vector, virRegs[a.inst], a.vector)
    ensures Taken(VExpire(regs, virRegs, active, start).regs, virRegs[a.inst], a.vector)
    decreases |active|
  {
    if active != [] {
      var init := active[..|active| - 1];
      assert active == init + [active[|active| - 1]];
      InitNoDup(active);
      assert VValid(virRegs, regs, init);
      VExpireKeepsTaken(regs, virRegs, init, start, a);
    }
  }

  /** The last interval's part of `VExpireKeepsValid`. */
  lemma VExpireLast(regs: seq<bool>, virRegs: map<nat, nat>, active: seq<LiveInterval>, start: nat)
    requires VValid(virRegs, regs, active) && active != []
    requires var init := active[..|active| - 1];
      VValid(virRegs, VExpire(regs, virRegs, init, start).regs, VExpire(regs, virRegs, init, start).lives)
    ensures var r := VExpire(regs, virRegs, active, start); VValid(virRegs, r.regs, r.lives)
  {
    InitNoDup(active);
    if active[|active| - 1].end < start {
      VExpireLastDropped(regs, virRegs, active, start);
    } else {
      VExpireLastKept(regs, virRegs, active, start);
    }
  }

  /** `VExpireLast` when the last interval has ended. */
  lemma VExpireLastDropped(regs: seq<bool>, virRegs: map<nat, nat>, active: seq<LiveInterval>, start: nat)
    requires VValid(virRegs, regs, active) && active != [] && active[|active| - 1].end < start
    requires forall b :: b in active[..|active| - 1] ==> b in active && b.inst != active[|active| - 1].inst
    requires var init := active[..|active| - 1];
      VValid(virRegs, VExpire(regs, virRegs, init, start).regs, VExpire(regs, virRegs, init, start).lives)
    ensures var r := VExpire(regs, virRegs, active, start); VValid(virRegs, r.regs, r.lives)
  {
    var init := active[..|active| - 1];
    var a := active[|active| - 1];
    var ex := VExpire(regs, virRegs, init, start);
    assert forall b :: b in ex.lives ==> b in init;
    VValidAfterRelease(virRegs, ex.regs, ex.lives, a);
  }

  /** `VExpireLast` when the last interval is still live. */
  lemma VExpireLastKept(regs: seq<bool>, virRegs: map<nat, nat>, active: seq<LiveInterval>, start: nat)
    requires VValid(virRegs, regs, active) && active != [] && start <= active[|active| - 1].end
    requires NoDup(active[..|active| - 1])
    requires forall b :: b in active[..|active| - 1] ==> b in active && b.inst != active[|active| - 1].inst
    requires var init := active[..|active| - 1];
      VValid(virRegs, VExpire(regs, virRegs, init, start).regs, VExpire(regs, virRegs, init, start).lives)
    ensures var r := VExpire(regs, virRegs, active, start); VValid(virRegs, r.regs, r.lives)
  {
    var init := active[..|active| - 1];
    var a := active[|active| - 1];
    var ex := VExpire(regs, virRegs, init, start);
    assert forall b :: b in ex.lives ==> b in init;
    assert VValid(virRegs, regs, init);
    VExpireKeepsTaken(regs, virRegs, init, start, a);
    VValidAppend(virRegs, ex.regs, ex.lives, a);
  }

  /** The invariant survives more taken slots and a table that agrees on the listed instructions. */
  lemma VValidTransport(vr: map<nat, nat>, regs: seq<bool>, vr': map<nat, nat>, regs': seq<bool>, s: seq<LiveInterval>)
    requires VValid(vr, regs, s) && Keeps(regs, regs')
    requires forall a :: a in s ==> a.inst in vr' && vr'[a.inst] == vr[a.inst]
    ensures VValid(vr', regs', s)
  {
  }

  /** With the intended spill rule, a step keeps the invariant when the new interval's instruction is not already active. */
  lemma VStepKeepsValid(st: VState, iv: LiveInterval)
    requires st.cursor <= |st.regs| && VValid(st.virRegs, st.regs, st.active)
    requires forall b :: b in st.active ==> b.inst != iv.inst
    ensures var r := VStep(true, st, iv); VValid(r.virRegs, r.regs, r.active)
  {
    var ex := VExpire(st.regs, st.virRegs, st.active, iv.start);
    VExpireKeepsValid(st.regs, st.virRegs, st.active, iv.start);
    var sp := SpillAt(true, ex.regs, st.cursor, iv.vector);
    SpillFresh(ex.regs, st.cursor, iv.vector);
    var vr' := st.virRegs[iv.inst := sp.slot];
    VValidTransport(st.virRegs, ex.regs, vr', sp.slots, ex.lives);
    forall b | b in ex.lives
      ensures b.inst != iv.inst && Apart(vr'[b.inst], b.vector, vr'[iv.inst], iv.vector)
    {
      assert b in st.active;
      assert Taken(ex.regs, st.virRegs[b.inst], b.vector);
    }
    VValidAppend(vr', sp.slots, ex.lives, iv);
  }

  /** Every processed interval still live at the start of the last one is active. */
  ghost predicate VTracked(st: VState, done: seq<LiveInterval>)
  {
    |done| > 0 ==> forall p :: p in done && p.end >= done[|done| - 1].start ==> p in st.active
  }

  /** An interval live at the start of a later one holds virtual registers apart from the later one's. */
  ghost predicate VSeparated(virRegs: map<nat, nat>, ivs: seq<LiveInterval>)
  {
    forall i, j :: 0 <= i < j < |ivs| && ivs[i].inst in virRegs && ivs[j].inst in virRegs && ivs[i].end >= ivs[j].start
      ==> Apart(virRegs[ivs[i].inst], ivs[i].vector, virRegs[ivs[j].inst], ivs[j].vector)
  }

  /** What holds after `VRegisterAllocator`'s loop has processed `done`. */
  ghost predicate VRunInv(st: VState, done: seq<LiveInterval>)
  {
    && st.cursor <= |st.regs|
    && VValid(st.virRegs, st.regs, st.active)
    && (forall a :: a in st.active ==> a in done)
    && (forall p :: p in done ==> p.inst in st.virRegs)
    && VTracked(st, done)
    && VSeparated(st.virRegs, done)
  }

  /** One more step keeps `VTracked`. */
  lemma VTrackedStep(st: VState, done: seq<LiveInterval>, iv: LiveInterval)
    requires st.cursor <= |st.regs| && VTracked(st, done)
    requires forall b :: b in done ==> b.start <= iv.start
    ensures VTracked(VStep(true, st, iv), done + [iv])
  {
    var r := VStep(true, st, iv);
    var d := done + [iv];
    forall p | p in d && p.end >= d[|d| - 1].start
      ensures p in r.active
    {
      if p != iv {
        assert p in done;
        assert done[|done| - 1] in done;
        assert p in st.active;
      }
    }
  }

  /** One more step keeps `VSeparated`. */
  lemma VSeparatedStep(st: VState, done: seq<LiveInterval>, iv: LiveInterval)
    requires VRunInv(st, done)
    requires forall b :: b in done ==> b.inst != iv.inst && b.start <= iv.start
    requires var r := VStep(true, st, iv); VValid(r.virRegs, r.regs, r.active)
    ensures VSeparated(VStep(true, st, iv).virRegs, done + [iv])
  {
    var r := VStep(true, st, iv);
    var d := done + [iv];
    forall i, j | 0 <= i < j < |d| && d[i].inst in r.virRegs && d[j].inst in r.virRegs && d[i].end >= d[j].start
      ensures Apart(r.virRegs[d[i].inst], d[i].vector, r.virRegs[d[j].inst], d[j].vector)
    {
      assert d[i] == done[i] && d[i] in done;
      if j < |done| {
        assert d[j] == done[j] && d[j] in done;
      } else {
        assert done[|done| - 1] in done;
        assert d[i] in st.active;
        assert d[i] in r.active && iv in r.active;
      }
    }
  }

  /** One more step keeps `VRunInv`. */
  lemma VRunInvStep(st: VState, done: seq<LiveInterval>, iv: LiveInterval)
    requires VRunInv(st, done)
    requires forall b :: b in done ==> b.inst != iv.inst && b.start <= iv.start
    ensures VRunInv(VStep(true, st, iv), done + [iv])
  {
    VStepKeepsValid(st, iv);
    VTrackedStep(st, done, iv);
    VSeparatedStep(st, done, iv);
    var r := VStep(true, st, iv);
    assert forall a :: a in r.active ==> a in done + [iv];
  }

  /**
   * With the intended spill rule, the virtual-register loop over sorted
   * intervals of distinct instructions never gives two intervals
   * overlapping virtual registers while the earlier one is still live at
   * the start of the later one.
   */
  lemma {:induction false} VRunSeparates(st0: VState, ivs: seq<LiveInterval>)
    requires st0.cursor <= |st0.regs| && st0.active == []
    requires Sorted(ivs) && NoDup(ivs)
    ensures VRunInv(VRun(true, st0, ivs), ivs)
    decreases |ivs|
  {
    if ivs != [] {
      var init := ivs[..|ivs| - 1];
      var iv := ivs[|ivs| - 1];
      SplitLast(ivs);
      InitOf(ivs);
      VRunSeparates(st0, init);
      VRunInvStep(VRun(true, st0, init), init, iv);
    }
  }

  /** As written, the first vector interval of an empty allocator takes register 0 and marks only it. */
  lemma VStepAsWrittenFirstVector(st: VState, a: LiveInterval)
    requires st.regs == [] && st.cursor == 0 && st.active == [] && a.vector
    ensures var r := VStep(false, st, a);
      r.regs == [true, false] && a.inst in r.virRegs && r.virRegs[a.inst] == 0 && r.active == [a] && r.cursor == 0
  {
    assert FirstFreePair([]) == -1;
  }

  /** As written, a scalar that starts while that vector is live takes register 1, its upper half. */
  lemma VStepAsWrittenScalarUpper(st: VState, a: LiveInterval, b: LiveInterval)
    requires st.regs == [true, false] && st.cursor == 0 && st.active == [a]
    requires a.inst in st.virRegs && st.virRegs[a.inst] == 0 && a.end >= b.start
    requires !b.vector && a.inst != b.inst
    ensures var r := VStep(false, st, b);
      a.inst in r.virRegs && b.inst in r.virRegs && r.virRegs[a.inst] == 0 && r.virRegs[b.inst] == 1
  {
    assert st.active[..0] == [];
    var ex := VExpire(st.regs, st.virRegs, st.active, b.start);
    assert VExpire(st.regs, st.virRegs, [], b.start) == VExpiry([], st.regs);
    assert [] + [a] == [a];
    assert ex == VExpiry([a], [true, false]);
    assert FirstClear([true, false]) == 1 by {
      assert [true, false][1..] == [false];
    }
  }

  /**
   * As written, a vector interval marks only its lower virtual register,
   * so a scalar interval that starts while it is live receives its upper
   * half.
   */
  lemma VRunAsWrittenOverlaps(st0: VState, a: LiveInterval, b: LiveInterval)
    requires st0.regs == [] && st0.cursor == 0 && st0.active == []
    requires a.inst == 0 && a.start == 0 && a.end == 5 && a.vector
    requires b.inst == 1 && b.start == 1 && b.end == 5 && !b.vector
    ensures var r := VRun(false, st0, [a, b]);
      && 0 in r.virRegs && 1 in r.virRegs && r.virRegs[0] == 0 && r.virRegs[1] == 1
      && !Apart(r.virRegs[0], true, r.virRegs[1], false)
  {
    assert [a, b][..1] == [a];
    assert [a][..0] == [];
    assert VRun(false, st0, [a]) == VStep(false, st0, a);
    VStepAsWrittenFirstVector(st0, a);
    VStepAsWrittenScalarUpper(VStep(false, st0, a), a, b);
  }
}
