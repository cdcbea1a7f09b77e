/**
 * `TranslateTable`: the open-addressing table from guest addresses (keys)
 * to translated code (values) that the dispatcher probes.
 *
 * The table has `size = 1 << hash_bits` home slots followed by ten spare
 * entries, the last of which holds an all-ones sentinel key.  Key 0 marks
 * an empty slot.  Put, GetOrPut, Lookup and Replace probe linearly upwards
 * from the home slot and give up at index size - 1; Put and GetOrPut call
 * `abort()` there, which the model returns as `Abort`.  The reader-writer
 * lock and the memory fence between the value and key writes are not part
 * of the model.
 */
module TranslateTable {
  import opened Bits

  const MaxKey: nat := 0xFFFF_FFFF_FFFF_FFFF
  const SpareEntries: nat := 10
  const DefaultHashBits: nat := 23

  datatype Entry = Entry(key: nat, value: nat)

  datatype Option<T> = None | Some(value: T)

  /** The result of an operation that may call `abort()`. */
  datatype Outcome<T> = Ok(value: T) | Abort

  /** `1 << hash_bits` is an `int` shift, defined for hash_bits below 31. */
  predicate HashBitsOk(hashBits: nat)
  {
    hashBits < 31
  }

  /** Hash(key) = ((key >> 2) >> hash_bits ^ (key >> 2)) & (size - 1). */
  function Hash(key: nat, hashBits: nat): (r: nat)
    ensures r < Pow2(hashBits)
  {
    var merged := Shr(key, 2);
    AndMask(Xor(Shr(merged, hashBits), merged), hashBits);
    And(Xor(Shr(merged, hashBits), merged), Pow2(hashBits) - 1)
  }

  // ---------------------------------------------------------------------
  // The probe sequences, as functions of the entries

  /**
   * Put's and GetOrPut's probe: the first slot from `index` on whose key is
   * 0 or `key`; None where the probe reaches index size - 1 (abort).
   */
  function ProbeFree(e: seq<Entry>, index: nat, key: nat, size: nat): (r: Option<nat>)
    requires index < size <= |e|
    ensures r.Some? ==> index <= r.value < size
    ensures r.Some? ==> e[r.value].key == 0 || e[r.value].key == key
    ensures r.Some? ==> r.value == index || r.value < size - 1
    decreases size - index
  {
    if e[index].key == 0 || e[index].key == key then Some(index)
    else if index + 1 >= size - 1 then None
    else ProbeFree(e, index + 1, key, size)
  }

  /**
   * Lookup's and Replace's search: the first slot from `index` on holding
   * `key`; the search stops after an empty slot or at index size - 1.
   */
  function FindKey(e: seq<Entry>, index: nat, key: nat, size: nat): (r: Option<nat>)
    requires index < size <= |e|
    ensures r.Some? ==> index <= r.value < size && e[r.value].key == key
    decreases size - index
  {
    if e[index].key == key then Some(index)
    else if index + 1 < size - 1 && e[index].key != 0 then FindKey(e, index + 1, key, size)
    else None
  }

  function LookupValue(e: seq<Entry>, index: nat, key: nat, size: nat): nat
    requires index < size <= |e|
  {
    match FindKey(e, index, key, size)
    case Some(i) => e[i].value
    case None => 0
  }

  /** The entries after Put(key, value) from home slot h. */
  function PutEntries(e: seq<Entry>, h: nat, key: nat, value: nat, size: nat): Outcome<seq<Entry>>
    requires h < size <= |e|
  {
    match ProbeFree(e, h, key, size)
    case Some(i) => Ok(e[i := Entry(key, value)])
    case None => Abort
  }

  /** GetOrPut keeps a slot that already holds the key with a nonzero value. */
  function GetOrPutEntries(e: seq<Entry>, h: nat, key: nat, value: nat, size: nat): Outcome<(nat, seq<Entry>)>
    requires h < size <= |e|
  {
    match ProbeFree(e, h, key, size)
    case Some(i) =>
      if e[i].key == key && e[i].value != 0 then Ok((2 * i + 1, e))
      else Ok((2 * i + 1, e[i := Entry(key, value)]))
    case None => Abort
  }

  /** Replace overwrites the value of the slot Lookup would find, and otherwise puts. */
  function ReplaceEntries(e: seq<Entry>, h: nat, key: nat, value: nat, size: nat): Outcome<seq<Entry>>
    requires h < size <= |e|
  {
    match FindKey(e, h, key, size)
    case Some(i) => Ok(e[i := e[i].(value := value)])
    case None => PutEntries(e, h, key, value, size)
  }

  /** entries.resize(size + 10), then the last key becomes all ones. */
  function ResetEntries(e: seq<Entry>, size: nat): (r: seq<Entry>)
    ensures |r| == size + SpareEntries
    ensures r[size + SpareEntries - 1].key == MaxKey
    ensures forall i :: 0 <= i < size + SpareEntries - 1 ==>
      r[i] == if i < |e| then e[i] else Entry(0, 0)
  {
    var resized := if |e| >= size + SpareEntries then e[..size + SpareEntries]
      else e + seq(size + SpareEntries - |e|, _ => Entry(0, 0));
    resized[size + SpareEntries - 1 := resized[size + SpareEntries - 1].(key := MaxKey)]
  }

  // ---------------------------------------------------------------------
  // Properties of the probes

  /** After Put(key, value), Lookup(key) finds the slot just written. */
  lemma {:induction false} FindAfterProbe(e: seq<Entry>, index: nat, key: nat, value: nat, size: nat)
    requires index < size <= |e| && ProbeFree(e, index, key, size).Some?
    ensures var p := ProbeFree(e, index, key, size).value;
      FindKey(e[p := Entry(key, value)], index, key, size) == Some(p)
    decreases size - index
  {
    var p := ProbeFree(e, index, key, size).value;
    if p != index {
      FindAfterProbe(e, index + 1, key, value, size);
    }
  }

  lemma PutThenLookup(e: seq<Entry>, h: nat, key: nat, value: nat, size: nat)
    requires h < size <= |e| && PutEntries(e, h, key, value, size).Ok?
    ensures LookupValue(PutEntries(e, h, key, value, size).value, h, key, size) == value
  {
    FindAfterProbe(e, h, key, value, size);
  }

  /** A nonzero key that Lookup finds is where Put writes: an existing key is overwritten, not duplicated. */
  lemma {:induction false} PutFindsExisting(e: seq<Entry>, index: nat, key: nat, size: nat)
    requires index < size <= |e| && key != 0 && FindKey(e, index, key, size).Some?
    ensures ProbeFree(e, index, key, size) == FindKey(e, index, key, size)
    decreases size - index
  {
    if e[index].key != key {
      PutFindsExisting(e, index + 1, key, size);
    }
  }

  /** Put touches one slot; every other entry is unchanged. */
  lemma PutChangesOneSlot(e: seq<Entry>, h: nat, key: nat, value: nat, size: nat)
    requires h < size <= |e| && PutEntries(e, h, key, value, size).Ok?
    ensures var e' := PutEntries(e, h, key, value, size).value;
      var p := ProbeFree(e, h, key, size).value;
      |e'| == |e| && e'[p] == Entry(key, value) &&
      forall i :: 0 <= i < |e| && i != p ==> e'[i] == e[i]
  {
  }

  /** GetOrPut's result is odd and names the slot; an existing nonzero value survives. */
  lemma GetOrPutSlot(e: seq<Entry>, h: nat, key: nat, value: nat, size: nat)
    requires h < size <= |e| && key != 0 && GetOrPutEntries(e, h, key, value, size).Ok?
    ensures var (r, e') := GetOrPutEntries(e, h, key, value, size).value;
      r % 2 == 1 && r > 0 && e'[(r - 1) / 2].key == key &&
      (forall i :: 0 <= i < |e| && i != (r - 1) / 2 ==> e'[i] == e[i]) &&
      (FindKey(e, h, key, size).Some? && e[FindKey(e, h, key, size).value].value != 0 ==> e' == e) &&
      LookupValue(e', h, key, size) == e'[(r - 1) / 2].value
  {
    var p := ProbeFree(e, h, key, size).value;
    FindAfterProbe(e, h, key, value, size);
    if FindKey(e, h, key, size).Some? {
      PutFindsExisting(e, h, key, size);
    }
    if e[p].key == key && e[p].value != 0 {
      assert e[p := Entry(key, e[p].value)] == e;
      FindAfterProbe(e, h, key, e[p].value, size);
    }
  }

  /** Replace on a key Lookup finds changes only that value. */
  lemma ReplaceThenLookup(e: seq<Entry>, h: nat, key: nat, value: nat, size: nat)
    requires h < size <= |e| && ReplaceEntries(e, h, key, value, size).Ok?
    ensures LookupValue(ReplaceEntries(e, h, key, value, size).value, h, key, size) == value
  {
    match FindKey(e, h, key, size)
    case Some(i) =>
      FindUnchangedKeys(e, h, key, size, i, value);
    case None =>
      PutThenLookup(e, h, key, value, size);
  }

  lemma {:induction false} FindUnchangedKeys(e: seq<Entry>, index: nat, key: nat, size: nat, i: nat, value: nat)
    requires index < size <= |e| && i < |e|
    ensures FindKey(e[i := e[i].(value := value)], index, key, size) == FindKey(e, index, key, size)
    decreases size - index
  {
    if e[index].key != key && index + 1 < size - 1 && e[index].key != 0 {
      FindUnchangedKeys(e, index + 1, key, size, i, value);
    }
  }

  /** After Clear no key but 0 is found. */
  lemma {:induction false} ClearForgets(n: nat, index: nat, key: nat, size: nat)
    requires index < size <= n && key != 0
    ensures FindKey(seq(n, _ => Entry(0, 0)), index, key, size) == None
  {
  }

  // ---------------------------------------------------------------------
  // Remove

  /**
   * Remove's probe step as written: `(index + 1) & size`.  With size a
   * power of two this is 0 except at index size - 1.
   */
  function NextIndexAsWritten(index: nat, size: nat): nat
  {
    And(index + 1, size)
  }

  /** The step evidently intended: wrap around to slot 0 after size - 1. */
  function NextIndex(index: nat, size: nat): (r: nat)
    requires size > 0
    ensures r < size
  {
    (index + 1) % size
  }

  /** `u32 end = index - 1`, wrapping to 2^32 - 1 for home slot 0. */
  function EndIndexAsWritten(h: nat): nat
  {
    (h + 0xFFFF_FFFF) % 0x1_0000_0000
  }

  /** The loop guard of Remove after a miss at `index`, going to `next`. */
  predicate RemoveContinues(e: seq<Entry>, index: nat, next: nat, end: nat, key: nat)
    requires index < |e|
  {
    e[index].key != key && next != end && e[index].key != 0
  }

  /** A four-slot table with key 1 in slot 0 and key 9 in slot 2. */
  function StuckTable(): seq<Entry>
  {
    var z := Entry(0, 0);
    [Entry(1, 100), z, Entry(9, 200), z, z, z, z, z, z, z, z, z, z, Entry(MaxKey, 0)]
  }

  /** The home slots of the keys in the example below, for hash_bits 2. */
  lemma ExampleHashes()
    ensures Hash(8, 2) == 2 && Hash(9, 2) == 2 && Hash(1, 2) == 0
  {
    assert Pow2(2) == 4;
    assert Shr(8, 2) == 2 && Shr(9, 2) == 2 && Shr(1, 2) == 0;
    assert Shr(2, 2) == 0 && Shr(0, 2) == 0;
    assert Xor(0, 2) == 2 && Xor(0, 0) == 0;
    assert And(2, 3) == 2 && And(0, 3) == 0;
  }

  /** With size 4, the written step sends slots 0 and 2 to slot 0. */
  lemma ExampleSteps()
    ensures NextIndexAsWritten(2, 4) == 0 && NextIndexAsWritten(0, 4) == 0
  {
    assert And(3, 4) == 2 * And(1, 2);
    assert And(1, 2) == 2 * And(0, 1);
    assert And(1, 4) == 2 * And(0, 2);
  }

  /**
   * Remove(8) on that table, as written, never ends: Hash(8) is slot 2
   * (ExampleHashes), which holds 9, so the probe steps to (2 + 1) & 4 = 0
   * (ExampleSteps); slot 0 holds 1, and (0 + 1) & 4 = 0 again, so the loop
   * stays at slot 0 and never reaches end = 1.
   */
  lemma RemoveAsWrittenLoops()
    ensures EndIndexAsWritten(2) == 1
    ensures RemoveContinues(StuckTable(), 2, 0, 1, 8)
    ensures RemoveContinues(StuckTable(), 0, 0, 1, 8)
  {
  }

  /**
   * The corrected Remove's probe: from `index`, at most `steps` slots,
   * wrapping with NextIndex; the slot holding `key`, if it is met before
   * an empty slot.
   */
  function FindForRemove(e: seq<Entry>, index: nat, key: nat, size: nat, steps: nat): (r: Option<nat>)
    requires index < size <= |e| && steps >= 1
    ensures r.Some? ==> r.value < size && e[r.value].key == key
    decreases steps
  {
    if e[index].key == key then Some(index)
    else if steps == 1 || e[index].key == 0 then None
    else FindForRemove(e, NextIndex(index, size), key, size, steps - 1)
  }

  /** Slots probed: every slot but the one before the home slot (one slot when size is 1). */
  function RemoveSteps(size: nat): nat
  {
    if size <= 1 then 1 else size - 1
  }

  function RemoveEntries(e: seq<Entry>, h: nat, key: nat, size: nat): (r: seq<Entry>)
    requires h < size <= |e|
    ensures |r| == |e|
  {
    match FindForRemove(e, h, key, size, RemoveSteps(size))
    case Some(i) => e[i := e[i].(key := 0)]
    case None => e
  }

  /** When the key sits in its home slot, the corrected Remove zeroes that slot's key and changes nothing else. */
  lemma RemoveHomeSlot(e: seq<Entry>, h: nat, key: nat, size: nat)
    requires h < size <= |e| && e[h].key == key
    ensures RemoveEntries(e, h, key, size) == e[h := Entry(0, e[h].value)]
  {
  }

  /** Remove keeps the value of the slot it empties, and every other entry. */
  lemma RemoveKeepsValues(e: seq<Entry>, h: nat, key: nat, size: nat)
    requires h < size <= |e|
    ensures var r := RemoveEntries(e, h, key, size);
      forall i :: 0 <= i < |e| ==> r[i].value == e[i].value && (r[i].key == e[i].key || (e[i].key == key && r[i].key == 0))
  {
  }

  /** After removing a nonzero key found in its home slot, Lookup no longer finds it there. */
  lemma RemoveThenLookup(e: seq<Entry>, h: nat, key: nat, size: nat)
    requires h < size <= |e| && key != 0 && e[h].key == key
    ensures LookupValue(RemoveEntries(e, h, key, size), h, key, size) == 0
  {
  }

  // ---------------------------------------------------------------------
  // The table

  class TranslateTable {
    const hashBits: nat
    const size: nat
    var entries: seq<Entry>
    /** Whether the calling thread holds `lock` exclusively. */
    ghost var held: bool
    /** Every exclusive acquisition of `lock` so far: whether the thread already held it then. */
    ghost var acquisitions: seq<bool>

    predicate Valid()
      reads this
    {
      HashBitsOk(hashBits) && size == Pow2(hashBits) && |entries| == size + SpareEntries
    }

    constructor(hashBits: nat)
      requires HashBitsOk(hashBits)
      ensures Valid() && this.hashBits == hashBits && size == Pow2(hashBits)
      ensures entries == ResetEntries([], size)
      ensures !held && acquisitions == []
    {
      this.hashBits := hashBits;
      size := Pow2(hashBits);
      entries := [];
      new;
      Reset();
      held := false;
      acquisitions := [];
    }

    function HashOf(key: nat): (r: nat)
      reads this
      requires Valid()
      ensures r < size
    {
      Hash(key, hashBits)
    }

    /** `std::unique_lock<TableLock> guard(lock)`: one more exclusive acquisition. */
    ghost method Lock()
      modifies this
      ensures entries == old(entries) && held
      ensures acquisitions == old(acquisitions) + [old(held)]
    {
      acquisitions := acquisitions + [held];
      held := true;
    }

    /** The guard going out of scope. */
    ghost method Unlock()
      modifies this
      ensures entries == old(entries) && acquisitions == old(acquisitions) && !held
    {
      held := false;
    }

    /** Put takes the lock, probes and writes under it, and lets it go. */
    method Put(key: nat, value: nat) returns (r: Outcome<bool>)
      requires Valid()
      modifies this
      ensures Valid()
      ensures var o := PutEntries(old(entries), HashOf(key), key, value, size);
        match o
        case Ok(e) => r == Ok(true) && entries == e
        case Abort => r == Abort && entries == old(entries)
      ensures acquisitions == old(acquisitions) + [old(held)] && !held
    {
      Lock();
      r := PutLocked(key, value);
      Unlock();
    }

    /** Put's probe and write, for a caller that holds the lock. */
    method PutLocked(key: nat, value: nat) returns (r: Outcome<bool>)
      requires Valid()
      modifies this
      ensures Valid() && held == old(held) && acquisitions == old(acquisitions)
      ensures var o := PutEntries(old(entries), HashOf(key), key, value, size);
        match o
        case Ok(e) => r == Ok(true) && entries == e
        case Abort => r == Abort && entries == old(entries)
    {
      var h := HashOf(key);
      var index := h;
      while !(entries[index].key == 0 || entries[index].key == key)
        invariant h <= index < size && (index == h || index < size - 1)
        invariant ProbeFree(entries, index, key, size) == ProbeFree(entries, h, key, size)
        decreases size - index
      {
        index := index + 1;
        if index >= size - 1 {
          return Abort;
        }
      }
      entries := entries[index := Entry(key, value)];
      r := Ok(true);
    }

    method GetOrPut(key: nat, value: nat) returns (r: Outcome<nat>)
      requires Valid()
      modifies this
      ensures Valid()
      ensures var o := GetOrPutEntries(old(entries), HashOf(key), key, value, size);
        match o
        case Ok((result, e)) => r == Ok(result) && entries == e
        case Abort => r == Abort && entries == old(entries)
      ensures acquisitions == old(acquisitions) + [old(held)] && !held
    {
      Lock();
      var h := HashOf(key);
      var index := h;
      while !(entries[index].key == 0 || entries[index].key == key)
        invariant h <= index < size && (index == h || index < size - 1)
        invariant ProbeFree(entries, index, key, size) == ProbeFree(entries, h, key, size)
        decreases size - index
      {
        index := index + 1;
        if index >= size - 1 {
          Unlock();
          return Abort;
        }
      }
      if !(entries[index].key == key && entries[index].value != 0) {
        entries := entries[index := Entry(key, value)];
      }
      r := Ok(2 * index + 1);
      Unlock();
    }

    method Lookup(key: nat) returns (value: nat)
      requires Valid()
      ensures value == LookupValue(entries, HashOf(key), key, size)
    {
      var h := HashOf(key);
      var index := h;
      while true
        invariant h <= index < size && (index == h || index < size - 1)
        invariant FindKey(entries, index, key, size) == FindKey(entries, h, key, size)
        decreases size - index
      {
        var cKey := entries[index].key;
        if cKey == key {
          return entries[index].value;
        }
        if !(index + 1 < size - 1 && cKey != 0) {
          return 0;
        }
        index := index + 1;
      }
    }

    /**
     * Replace as written: under the lock it overwrites the value Lookup
     * would return, and otherwise calls Put, which takes the same lock again.
     */
    method Replace(key: nat, value: nat) returns (r: Outcome<bool>)
      requires Valid()
      modifies this
      ensures Valid()
      ensures var o := ReplaceEntries(old(entries), HashOf(key), key, value, size);
        match o
        case Ok(e) => r == Ok(true) && entries == e
        case Abort => r == Abort && entries == old(entries)
      ensures acquisitions == old(acquisitions) +
        ReplaceAcquisitionsAsWritten(old(held), FindKey(old(entries), HashOf(key), key, size).Some?)
      ensures !held
    {
      Lock();
      var found, index := Search(key);
      if found {
        entries := entries[index := entries[index].(value := value)];
        r := Ok(true);
      } else {
        r := Put(key, value);
      }
      Unlock();
    }

    /** Replace as intended: the absent key is put under the lock already held. */
    method ReplaceHeld(key: nat, value: nat) returns (r: Outcome<bool>)
      requires Valid()
      modifies this
      ensures Valid()
      ensures var o := ReplaceEntries(old(entries), HashOf(key), key, value, size);
        match o
        case Ok(e) => r == Ok(true) && entries == e
        case Abort => r == Abort && entries == old(entries)
      ensures acquisitions == old(acquisitions) + ReplaceAcquisitions(old(held))
      ensures !held
    {
      Lock();
      var found, index := Search(key);
      if found {
        entries := entries[index := entries[index].(value := value)];
        r := Ok(true);
      } else {
        r := PutLocked(key, value);
      }
      Unlock();
    }

    /** Replace's search loop: the slot FindKey finds, if any. */
    method Search(key: nat) returns (found: bool, index: nat)
      requires Valid()
      ensures found <==> FindKey(entries, HashOf(key), key, size).Some?
      ensures found ==> index == FindKey(entries, HashOf(key), key, size).value
    {
      var h := HashOf(key);
      index := h;
      found := false;
      while true
        invariant h <= index < size && (index == h || index < size - 1)
        invariant FindKey(entries, index, key, size) == FindKey(entries, h, key, size)
        decreases size - index
      {
        var cKey := entries[index].key;
        if cKey == key {
          found := true;
          return;
        }
        if !(index + 1 < size - 1 && cKey != 0) {
          return;
        }
        index := index + 1;
      }
    }

    /** Remove with the wrapping step NextIndex; only the key of the slot found is zeroed. */
    method Remove(key: nat)
      requires Valid()
      modifies this
      ensures Valid() && entries == RemoveEntries(old(entries), HashOf(key), key, size)
      ensures acquisitions == old(acquisitions) + [old(held)] && !held
    {
      Lock();
      var h := HashOf(key);
      var index: nat := h;
      var steps: nat := RemoveSteps(size);
      while true
        invariant Valid() && entries == old(entries)
        invariant held && acquisitions == old(acquisitions) + [old(held)]
        invariant index < size && 1 <= steps
        invariant FindForRemove(entries, index, key, size, steps) == FindForRemove(entries, h, key, size, RemoveSteps(size))
        decreases steps
      {
        var cKey := entries[index].key;
        if cKey == key {
          entries := entries[index := entries[index].(key := 0)];
          Unlock();
          return;
        }
        if steps == 1 || cKey == 0 {
          Unlock();
          return;
        }
        index := NextIndex(index, size);
        steps := steps - 1;
      }
    }

    method Clear()
      requires Valid()
      modifies this
      ensures Valid() && entries == seq(|old(entries)|, _ => Entry(0, 0))
    {
      entries := seq(|entries|, _ => Entry(0, 0));
    }

    method Reset()
      requires HashBitsOk(hashBits) && size == Pow2(hashBits)
      modifies this
      ensures Valid() && entries == ResetEntries(old(entries), size)
    {
      entries := ResetEntries(entries, size);
    }
  }

  // ---------------------------------------------------------------------
  // Replace's locking

  /**
   * Replace's exclusive acquisitions as written, each as whether the lock
   * was held then: its own, and Put's while its own is held.
   */
  function ReplaceAcquisitionsAsWritten(held: bool, found: bool): seq<bool>
  {
    if found then [held] else [held, true]
  }

  /** The acquisitions of the Replace that puts under the lock it holds. */
  function ReplaceAcquisitions(held: bool): seq<bool>
  {
    [held]
  }

  /** Locking a std::shared_mutex the thread already owns is undefined behaviour. */
  predicate LockingIsSound(acquisitions: seq<bool>)
  {
    forall i :: 0 <= i < |acquisitions| ==> !acquisitions[i]
  }

  /** As written, Replace from an unlocked state locks soundly exactly when the key is found. */
  lemma ReplaceRelocksWhenAbsent(held: bool, found: bool)
    ensures LockingIsSound(ReplaceAcquisitionsAsWritten(held, found)) <==> !held && found
  {
    assert ReplaceAcquisitionsAsWritten(held, found)[0] == held;
    if !found {
      assert ReplaceAcquisitionsAsWritten(held, found)[1];
    }
  }

  /** The corrected Replace locks soundly whenever it is called without the lock. */
  lemma ReplaceLocksOnce(held: bool)
    ensures LockingIsSound(ReplaceAcquisitions(held)) <==> !held
  {
    assert ReplaceAcquisitions(held)[0] == held;
  }
}
