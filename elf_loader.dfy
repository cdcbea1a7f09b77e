/**
 * The ELF loader's arithmetic: protection flags from a program header,
 * the bss ranges of a segment, the choice of the first and last PT_LOAD
 * headers and the addresses handed back (load bias, entry, program
 * headers), following the "Program Header" section of chapter 5 of the
 * System V ABI.  mmap, mprotect, bzero and pread are not performed: the
 * loader returns the list of memory operations it would issue, and the
 * one result it depends on (the address of the first mapping) is a
 * parameter.  Addresses are 64-bit and wrap modulo 2^64.
 */
module ElfLoader {
  import opened Wrappers
  import opened Bits
  import CommonFuncs

  const AddrBits: nat := 64
  const Two64: nat := 0x1_0000_0000_0000_0000

  const PT_LOAD: nat := 1
  const PT_INTERP: nat := 3
  const ET_DYN: nat := 3
  const PF_X: nat := 1
  const PF_W: nat := 2
  const PF_R: nat := 4
  const PROT_NONE: nat := 0
  const PROT_READ: nat := 1
  const PROT_WRITE: nat := 2
  const PROT_EXEC: nat := 4
  const EM_386: nat := 3
  const EM_ARM: nat := 40
  const EM_X86_64: nat := 62
  const EM_AARCH64: nat := 183

  /** MAX_PHNUM: the size of the program-header array. */
  const MaxPhnum: nat := 12
  /** sizeof(Elf64_Phdr). */
  const PhdrSize: nat := 56
  /** sizeof(interp_buffer) = PATH_MAX + 1. */
  const InterpBufferSize: nat := 4097

  datatype Phdr = Phdr(ptype: nat, flags: nat, offset: nat, vaddr: nat, filesz: nat, memsz: nat)

  /**
   * The ELF header fields the loader reads.  `identOk` is the combined
   * result of the magic, version, header-size and entry-size comparisons.
   */
  datatype Ehdr = Ehdr(identOk: bool, machine: nat, etype: nat, phoff: nat, phnum: nat, entry: nat)

  /** A memory operation the loader issues. */
  datatype MemOp =
    | MapFile(start: nat, length: nat, prot: nat, fileOffset: nat, fixed: bool)
    | MapAnon(start: nat, length: nat, prot: nat)
    | Protect(start: nat, length: nat, prot: nat)
    | ZeroFill(start: nat, length: nat)

  datatype Interp = NoInterp | InImage(addr: nat) | ReadFromFile(offset: nat, size: nat)

  datatype LoadInfo = LoadInfo(addr: nat, base: nat, phdr: nat, phnum: nat, machine: nat, interp: Interp)

  datatype PanicReason =
    | WrongArchitecture | BadPhnum | NotDyn | NoLoadSegment | MapFailed | PhdrsNotInFirstLoad | InterpTooLong

  datatype LoadOutcome = Panic(reason: PanicReason) | Loaded(info: LoadInfo, ops: seq<MemOp>)

  /** An unsigned 64-bit result. */
  function Wrap(x: int): nat
  {
    x % Two64
  }

  // ---------------------------------------------------------------------
  // Protection flags

  /** `flags & (1 << k)` is nonzero exactly when bit k is set. */
  lemma FlagTest(x: nat, k: nat)
    ensures (And(x, Pow2(k)) != 0) == Bit(x, k)
  {
    var a := And(x, Pow2(k));
    forall i: nat ensures Bit(Pow2(k), i) == (i == k) {
      MulPow2Bit(1, k, i);
      if k <= i {
        BitOfTwice(0, 1, i - k);
        if i > k {
          BitOfZero(i - k - 1);
        }
      }
    }
    AndBit(x, Pow2(k), k);
    if a == 0 {
      BitOfZero(k);
    } else {
      Pow2Mono(k, k + 1);
      ZeroIffNoBit(a, k + 1);
      var i :| 0 <= i < k + 1 && Bit(a, i);
      AndBit(x, Pow2(k), i);
    }
  }

  /** ProtFromPhdr: PROT_READ, PROT_WRITE and PROT_EXEC for PF_R, PF_W and PF_X. */
  function ProtFromPhdr(flags: nat): (prot: nat)
  {
    var p1 := if And(flags, PF_R) != 0 then Or(0, PROT_READ) else 0;
    var p2 := if And(flags, PF_W) != 0 then Or(p1, PROT_WRITE) else p1;
    if And(flags, PF_X) != 0 then Or(p2, PROT_EXEC) else p2
  }

  /** Each protection bit is set exactly when its segment flag is, and no other bit is. */
  lemma ProtMatchesFlags(flags: nat)
    ensures Bit(ProtFromPhdr(flags), 0) == Bit(flags, 2)
    ensures Bit(ProtFromPhdr(flags), 1) == Bit(flags, 1)
    ensures Bit(ProtFromPhdr(flags), 2) == Bit(flags, 0)
    ensures ProtFromPhdr(flags) < 8
  {
    Pow2Small();
    assert Pow2(0) == 1 && Pow2(1) == 2 && Pow2(3) == 8;
    FlagTest(flags, 0);
    FlagTest(flags, 1);
    FlagTest(flags, 2);
    var r := Bit(flags, 2);
    var w := Bit(flags, 1);
    var x := Bit(flags, 0);
    var p1 := if r then Or(0, PROT_READ) else 0;
    var p2 := if w then Or(p1, PROT_WRITE) else p1;
    var p3 := if x then Or(p2, PROT_EXEC) else p2;
    assert p3 == ProtFromPhdr(flags);
    assert p3 == (if r then 1 else 0) + (if w then 2 else 0) + (if x then 4 else 0) by {
      ProtSum(r, w, x);
    }
    ProtBits(r, w, x);
  }

  lemma ProtSum(r: bool, w: bool, x: bool)
    ensures var p1 := if r then Or(0, PROT_READ) else 0;
      var p2 := if w then Or(p1, PROT_WRITE) else p1;
      (if x then Or(p2, PROT_EXEC) else p2) == (if r then 1 else 0) + (if w then 2 else 0) + (if x then 4 else 0)
  {
    var p1 := if r then Or(0, PROT_READ) else 0;
    assert p1 == (if r then 1 else 0);
    var p2 := if w then Or(p1, PROT_WRITE) else p1;
    assert p2 == p1 + (if w then 2 else 0);
  }

  lemma ProtBits(r: bool, w: bool, x: bool)
    ensures var p := (if r then 1 else 0) + (if w then 2 else 0) + (if x then 4 else 0);
      Bit(p, 0) == r && Bit(p, 1) == w && Bit(p, 2) == x && p < 8
  {
    var p := (if r then 1 else 0) + (if w then 2 else 0) + (if x then 4 else 0);
    assert Pow2(1) == 2;
    Pow2Small();
  }

  // ---------------------------------------------------------------------
  // Page rounding and bss

  lemma AddrPow()
    ensures Pow2(AddrBits) == Two64
  {
    Pow2Words();
  }

  /**
   * The greatest multiple of p that is at most x, by repeated subtraction
   * (DownIsMod: it is x - x % p).
   */
  function Down(x: nat, p: nat): (r: nat)
    requires p > 0
    ensures r <= x
    decreases x
  {
    if x < p then 0 else p + Down(x - p, p)
  }

  /** Down clears the remainder modulo p. */
  lemma {:induction false} DownIsMod(x: nat, p: nat)
    requires p > 0
    ensures Down(x, p) == x - x % p
    decreases x
  {
    if x < p {
      ModSmall(x, p);
    } else {
      DownIsMod(x - p, p);
      DivMod(x - p, p);
      DivUnique(x, p, (x - p) / p + 1, (x - p) % p);
    }
  }

  /**
   * `RoundDown(x, pagesize)` on an address, for the page size 2^pageShift
   * (x & -pagesize; see PageRoundingAgrees).
   */
  function PageDown(x: nat, pageShift: nat): (r: nat)
  {
    Down(x, Pow2(pageShift))
  }

  /** `RoundUp(x, pagesize)`: RoundDown(x + pagesize - 1) with 64-bit wrap. */
  function PageUp(x: nat, pageShift: nat): (r: nat)
  {
    Down(Wrap(x + Pow2(pageShift) - 1), Pow2(pageShift))
  }

  /** The page rounding used here is the common RoundDown/RoundUp (x & -n) for n = 2^pageShift. */
  lemma PageRoundingAgrees(x: nat, pageShift: nat)
    requires pageShift <= AddrBits && x < Pow2(AddrBits)
    ensures PageDown(x, pageShift) == CommonFuncs.RoundDown(x, Pow2(pageShift), AddrBits)
    ensures PageUp(x, pageShift) == CommonFuncs.RoundUp(x, Pow2(pageShift), AddrBits)
  {
    CommonFuncs.RoundDownPow2(x, pageShift, AddrBits);
    DownIsMod(x, Pow2(pageShift));
    AddrPow();
    PageUpAgrees(x, pageShift, AddrBits);
  }

  lemma PageUpAgrees(x: nat, pageShift: nat, w: nat)
    requires Pow2(w) == Two64 && pageShift <= w && x < Pow2(w)
    ensures PageUp(x, pageShift) == CommonFuncs.RoundUp(x, Pow2(pageShift), w)
  {
    var p := Pow2(pageShift);
    RoundUpIsDown(x, pageShift, w);
    WrapUpForm(x, p);
  }

  /** For n = 2^k, RoundUp is Down on the wrapped x + n - 1. */
  lemma RoundUpIsDown(x: nat, k: nat, w: nat)
    requires k <= w && x < Pow2(w)
    ensures CommonFuncs.RoundUp(x, Pow2(k), w) == Down((x + Pow2(k) + Pow2(w) - 1) % Pow2(w), Pow2(k))
  {
    var y := (x + Pow2(k) + Pow2(w) - 1) % Pow2(w);
    assert y < Pow2(w) by { DivMod(x + Pow2(k) + Pow2(w) - 1, Pow2(w)); }
    assert CommonFuncs.RoundDown(y, Pow2(k), w) == Down(y, Pow2(k)) by { CommonFuncs.RoundDownPow2(y, k, w); DownIsMod(y, Pow2(k)); }
  }

  /** `x + p - 1` wrapped is `(x + p + 2^64 - 1) % 2^64`, the form RoundUp computes. */
  lemma WrapUpForm(x: nat, p: nat)
    requires p > 0
    ensures Wrap(x + p - 1) == (x + p + Two64 - 1) % Two64
  {
    DivMod(x + p - 1, Two64);
    DivUnique(x + p + Two64 - 1, Two64, (x + p - 1) / Two64 + 1, (x + p - 1) % Two64);
  }

  /** Without wrap, rounding gives the neighbouring multiples of p. */
  lemma Rounding(x: nat, p: nat)
    requires p > 0 && x + p - 1 < Two64
    ensures Down(x, p) % p == 0 && x - p < Down(x, p)
    ensures Down(Wrap(x + p - 1), p) % p == 0
    ensures x <= Down(Wrap(x + p - 1), p) < x + p
  {
    DownIsMod(x, p);
    RemainderCleared(x, p);
    var y := x + p - 1;
    ModSmall(y, Two64);
    DownIsMod(y, p);
    RemainderCleared(y, p);
  }

  /** x minus its remainder is the multiple of p just at or below x. */
  lemma RemainderCleared(x: nat, p: nat)
    requires p > 0
    ensures (x - x % p) % p == 0 && x - p < x - x % p <= x
  {
    DivMod(x, p);
    DivUnique(x - x % p, p, x / p, 0);
  }

  /** Without wrap, page rounding gives the neighbouring page boundaries. */
  lemma PageRounding(x: nat, k: nat)
    requires x + Pow2(k) - 1 < Two64
    ensures PageDown(x, k) % Pow2(k) == 0 && x - Pow2(k) < PageDown(x, k)
    ensures PageUp(x, k) % Pow2(k) == 0
    ensures x <= PageUp(x, k) < x + Pow2(k)
  {
    Rounding(x, Pow2(k));
  }

  /** Without wrap-around, rounding up moves less than a page. */
  lemma PageUpWithin(x: nat, k: nat)
    requires x + Pow2(k) - 1 < Two64
    ensures x <= PageUp(x, k) < x + Pow2(k)
  {
    PageRounding(x, k);
  }

  lemma PageUpAligned(x: nat, k: nat)
    requires x + Pow2(k) - 1 < Two64
    ensures Aligned(PageUp(x, k), Pow2(k))
  {
    PageRounding(x, k);
  }

  /**
   * The operations HandleBss issues, given the end of the file data, the
   * page boundaries after it and after the end of memory, the segment's
   * protection and whether it is writable.
   */
  function BssOps(fileEnd: nat, filePageEnd: nat, pageEnd: nat, prot: nat, writable: bool): seq<MemOp>
  {
    (if pageEnd > filePageEnd then [MapAnon(filePageEnd, pageEnd - filePageEnd, prot)] else [])
    + (if filePageEnd > fileEnd && writable then [ZeroFill(fileEnd, filePageEnd - fileEnd)] else [])
  }

  /**
   * HandleBss: for a segment whose memory size exceeds its file size,
   * anonymous pages over the whole pages past the file data, and a zero
   * fill of the rest of the last file page when the segment is writable.
   */
  function HandleBss(ph: Phdr, bias: nat, pageShift: nat): (ops: seq<MemOp>)
  {
    if ph.memsz > ph.filesz then
      var fileEnd := Wrap(ph.vaddr + bias + ph.filesz);
      BssOps(fileEnd, PageUp(fileEnd, pageShift), PageUp(Wrap(ph.vaddr + bias + ph.memsz), pageShift),
             ProtFromPhdr(ph.flags), And(ph.flags, PF_W) != 0)
    else []
  }

  /** x is a multiple of p. */
  predicate Aligned(x: nat, p: nat)
    requires p > 0
  {
    x % p == 0
  }

  /** The operation makes address a readable as zeros: an anonymous mapping or a zero fill over it. */
  predicate ZeroesAddr(op: MemOp, a: nat)
  {
    (op.MapAnon? || op.ZeroFill?) && op.start <= a < op.start + op.length
  }

  /** HandleBss without wrap-around, in terms of the unwrapped segment ends. */
  lemma BssShape(ph: Phdr, bias: nat, pageShift: nat)
    requires ph.vaddr + bias + ph.memsz < Two64 && ph.memsz > ph.filesz
    ensures var fileEnd := ph.vaddr + bias + ph.filesz;
      HandleBss(ph, bias, pageShift)
        == BssOps(fileEnd, PageUp(fileEnd, pageShift), PageUp(ph.vaddr + bias + ph.memsz, pageShift),
                  ProtFromPhdr(ph.flags), Bit(ph.flags, 1))
  {
    var fileEnd, memEnd := ph.vaddr + bias + ph.filesz, ph.vaddr + bias + ph.memsz;
    assert Wrap(fileEnd) == fileEnd by { ModSmall(fileEnd, Two64); }
    assert Wrap(memEnd) == memEnd by { ModSmall(memEnd, Two64); }
    assert (And(ph.flags, PF_W) != 0) == Bit(ph.flags, 1) by {
      FlagTest(ph.flags, 1);
      assert Pow2(1) == 2;
    }
  }

  /** On page boundaries f and e (multiples of p), the anonymous mapping is whole pages with the given protection. */
  lemma BssOpsAnon(fileEnd: nat, f: nat, e: nat, p: nat, prot: nat, writable: bool)
    requires p > 0 && Aligned(f, p) && Aligned(e, p)
    ensures forall op :: op in BssOps(fileEnd, f, e, prot, writable) && op.MapAnon? ==>
              Aligned(op.start, p) && Aligned(op.length, p) && op.prot == prot
  {
    if e > f {
      ModDiff(e, f, p);
    }
  }

  /** With f the page boundary after fileEnd, the zero fill is the rest of that page, and only when writable. */
  lemma BssOpsZero(fileEnd: nat, f: nat, e: nat, p: nat, prot: nat, writable: bool)
    requires fileEnd <= f < fileEnd + p
    ensures forall op :: op in BssOps(fileEnd, f, e, prot, writable) && op.ZeroFill? ==>
              op.start == fileEnd && op.length < p && writable
  {
  }

  /** An address in [fileEnd, e) past the file data is zeroed by one of the operations of a writable bss. */
  lemma BssOpsCover(fileEnd: nat, f: nat, e: nat, prot: nat, a: nat) returns (j: nat)
    requires fileEnd <= f && fileEnd <= a < e
    ensures j < |BssOps(fileEnd, f, e, prot, true)| && ZeroesAddr(BssOps(fileEnd, f, e, prot, true)[j], a)
  {
    var ops := BssOps(fileEnd, f, e, prot, true);
    if a < f {
      j := |ops| - 1;
    } else {
      j := 0;
    }
  }

  /**
   * For a page size 2^k and no wrap-around: the anonymous range is whole
   * pages with the segment's protection.
   */
  lemma BssAnonPages(ph: Phdr, bias: nat, k: nat)
    requires ph.vaddr + bias + ph.memsz + Pow2(k) - 1 < Two64
    ensures forall op :: op in HandleBss(ph, bias, k) && op.MapAnon? ==>
              Aligned(op.start, Pow2(k)) && Aligned(op.length, Pow2(k)) && op.prot == ProtFromPhdr(ph.flags)
  {
    if ph.memsz > ph.filesz {
      var fileEnd, memEnd := ph.vaddr + bias + ph.filesz, ph.vaddr + bias + ph.memsz;
      PageUpAligned(fileEnd, k);
      PageUpAligned(memEnd, k);
      BssShape(ph, bias, k);
      BssOpsAnon(fileEnd, PageUp(fileEnd, k), PageUp(memEnd, k), Pow2(k), ProtFromPhdr(ph.flags), Bit(ph.flags, 1));
    }
  }

  /**
   * For a page size 2^k and no wrap-around: the zero fill starts at the
   * end of the file data, stays inside its page, and only writable
   * segments get one.
   */
  lemma BssZeroFill(ph: Phdr, bias: nat, k: nat)
    requires ph.vaddr + bias + ph.memsz + Pow2(k) - 1 < Two64
    ensures forall op :: op in HandleBss(ph, bias, k) && op.ZeroFill? ==>
              op.start == ph.vaddr + bias + ph.filesz && op.length < Pow2(k) && Bit(ph.flags, 1)
  {
    if ph.memsz > ph.filesz {
      var fileEnd, memEnd := ph.vaddr + bias + ph.filesz, ph.vaddr + bias + ph.memsz;
      PageUpWithin(fileEnd, k);
      BssShape(ph, bias, k);
      BssOpsZero(fileEnd, PageUp(fileEnd, k), PageUp(memEnd, k), Pow2(k), ProtFromPhdr(ph.flags), Bit(ph.flags, 1));
    }
  }

  /** For a writable segment every bss byte [file end, memory end) is zero-filled or in an anonymous page. */
  lemma BssCovered(ph: Phdr, bias: nat, k: nat, a: nat)
    requires ph.vaddr + bias + ph.memsz + Pow2(k) - 1 < Two64
    requires ph.memsz > ph.filesz && Bit(ph.flags, 1)
    requires ph.vaddr + bias + ph.filesz <= a < ph.vaddr + bias + ph.memsz
    ensures exists j :: 0 <= j < |HandleBss(ph, bias, k)| && ZeroesAddr(HandleBss(ph, bias, k)[j], a)
  {
    var fileEnd, memEnd := ph.vaddr + bias + ph.filesz, ph.vaddr + bias + ph.memsz;
    PageUpWithin(fileEnd, k);
    PageUpWithin(memEnd, k);
    BssShape(ph, bias, k);
    var j := BssOpsCover(fileEnd, PageUp(fileEnd, k), PageUp(memEnd, k), ProtFromPhdr(ph.flags), a);
    assert ZeroesAddr(HandleBss(ph, bias, k)[j], a);
  }

  lemma ModDiff(a: nat, b: nat, p: nat)
    requires p > 0 && b <= a && a % p == 0 && b % p == 0
    ensures (a - b) % p == 0
  {
    DivMod(a, p);
    DivMod(b, p);
    assert a - b == (a / p - b / p) * p;
    DivUnique(a - b, p, a / p - b / p, 0);
  }

  // ---------------------------------------------------------------------
  // The header checks and the choice of PT_LOAD headers

  /** `mapping == -1`: MAP_FAILED as an unsigned address. */
  const MapFailedAddr: nat := 0xFFFF_FFFF_FFFF_FFFF

  predicate KnownMachine(machine: nat)
  {
    machine == EM_ARM || machine == EM_AARCH64 || machine == EM_X86_64 || machine == EM_386
  }

  /**
   * The machine recorded in LoadInfo, as the code is written: the switch
   * runs only when the identity comparisons fail, and then panics on an
   * unknown machine; a header that passes them leaves the machine 0.
   * Nothing is a panic.
   */
  function MachineAsWritten(ehdr: Ehdr): (r: Option<nat>)
    ensures ehdr.identOk ==> r == Some(0)
    ensures !ehdr.identOk ==> (r.Some? <==> KnownMachine(ehdr.machine))
    ensures !ehdr.identOk && r.Some? ==> r.value == ehdr.machine
  {
    if ehdr.identOk then Some(0)
    else if KnownMachine(ehdr.machine) then Some(ehdr.machine)
    else None
  }

  /**
   * The evidently intended check: a header whose identity comparisons fail
   * is a panic, and an accepted header records its own machine, which must
   * be one of the four supported.
   */
  function MachineChecked(ehdr: Ehdr): (r: Option<nat>)
    ensures r.Some? <==> ehdr.identOk && KnownMachine(ehdr.machine)
    ensures r.Some? ==> r.value == ehdr.machine
  {
    if !ehdr.identOk then None
    else if KnownMachine(ehdr.machine) then Some(ehdr.machine)
    else None
  }

  /**
   * The two disagree on every header: a well-formed AArch64 header loses
   * its machine, and a header with a bad identity but a known machine is
   * accepted; neither check ever gives the same verdict and machine.
   */
  lemma MachineAsWrittenInverted(ehdr: Ehdr)
    ensures MachineChecked(ehdr).Some? ==> MachineAsWritten(ehdr) == Some(0) != MachineChecked(ehdr)
    ensures !ehdr.identOk && KnownMachine(ehdr.machine) ==>
              MachineAsWritten(ehdr) == Some(ehdr.machine) && MachineChecked(ehdr).None?
  {
  }

  /** The index of the first PT_LOAD header in [i, n), or n when there is none. */
  function FirstLoadFrom(phdrs: seq<Phdr>, i: nat, n: nat): (r: nat)
    requires i <= n <= |phdrs|
    ensures i <= r <= n
    ensures r < n ==> phdrs[r].ptype == PT_LOAD
    ensures forall j :: i <= j < r ==> phdrs[j].ptype != PT_LOAD
    decreases n - i
  {
    if i == n || phdrs[i].ptype == PT_LOAD then i else FirstLoadFrom(phdrs, i + 1, n)
  }

  /**
   * Walking down from j towards `first`: the index of the last PT_LOAD
   * header in (first, j], or `first` when there is none.
   */
  function LastLoadDown(phdrs: seq<Phdr>, first: nat, j: nat): (r: nat)
    requires first <= j < |phdrs|
    ensures first <= r <= j
    ensures r > first ==> phdrs[r].ptype == PT_LOAD
    ensures forall m :: r < m <= j ==> phdrs[m].ptype != PT_LOAD
    decreases j
  {
    if j > first && phdrs[j].ptype != PT_LOAD then LastLoadDown(phdrs, first, j - 1) else j
  }

  /** `span`: from the first segment's start to the last segment's end, as a size_t. */
  function Span(first: Phdr, last: Phdr): nat
  {
    Wrap(last.vaddr + last.memsz as int - first.vaddr)
  }

  /** `load_bias = mapping - RoundDown(first.p_vaddr, pagesize)`. */
  function LoadBias(mapping: nat, first: Phdr, pageShift: nat): nat
  {
    Wrap(mapping as int - PageDown(first.vaddr, pageShift))
  }

  /**
   * The containment check as written: the first PT_LOAD must start in the
   * file at or before the program headers, and its file size must reach
   * the end of the header table counted from the start of the file.
   */
  predicate PhdrCheckPasses(ehdr: Ehdr, first: Phdr)
  {
    first.offset <= ehdr.phoff && first.filesz >= Wrap(ehdr.phoff + ehdr.phnum * PhdrSize)
  }

  // ---------------------------------------------------------------------
  // The remaining segments

  /**
   * One pass of the segment loop for header `ph`, given the end of the
   * previous segment: a PROT_NONE protection of the hole before it (if
   * any), the fixed file mapping of its pages, its bss, and the new end.
   * Headers other than PT_LOAD change nothing.
   */
  function SegmentStep(ph: Phdr, bias: nat, pageShift: nat, lastEnd: nat): (r: (seq<MemOp>, nat))
  {
    if ph.ptype != PT_LOAD then ([], lastEnd)
    else
      var lastPageEnd := PageUp(lastEnd, pageShift);
      var newEnd := Wrap(ph.vaddr + bias + ph.memsz);
      var start := PageDown(Wrap(ph.vaddr + bias), pageShift);
      var end := PageUp(newEnd, pageShift);
      ((if start > lastPageEnd then [Protect(lastPageEnd, start - lastPageEnd, PROT_NONE)] else [])
       + [MapFile(start, Wrap(end as int - start), ProtFromPhdr(ph.flags), PageDown(ph.offset, pageShift), true)]
       + HandleBss(ph, bias, pageShift),
       newEnd)
  }

  /** The operations of the segment loop over headers j..last. */
  function SegmentsFrom(phdrs: seq<Phdr>, j: nat, last: nat, bias: nat, pageShift: nat, lastEnd: nat): seq<MemOp>
    requires j <= last + 1 <= |phdrs|
    decreases last + 1 - j
  {
    if j > last then []
    else
      var step := SegmentStep(phdrs[j], bias, pageShift, lastEnd);
      step.0 + SegmentsFrom(phdrs, j + 1, last, bias, pageShift, step.1)
  }

  // ---------------------------------------------------------------------
  // PT_INTERP

  /**
   * Where the interpreter path of a PT_INTERP header is found: in the
   * mapped image when the header's file range starts no earlier and is no
   * longer than the first PT_LOAD's, else read from the file into a buffer
   * of PATH_MAX + 1 bytes; nothing (a panic) when it does not fit.
   */
  function InterpOf(ph: Phdr, first: Phdr, bias: nat): (r: Option<Interp>)
    ensures r.None? <==> !(ph.offset >= first.offset && ph.filesz <= first.filesz) && ph.filesz >= InterpBufferSize
    ensures r.Some? && r.value.ReadFromFile? ==> r.value.size < InterpBufferSize
  {
    if ph.offset >= first.offset && ph.filesz <= first.filesz then Some(InImage(Wrap(ph.vaddr + bias)))
    else if ph.filesz >= InterpBufferSize then None
    else Some(ReadFromFile(ph.offset, ph.filesz))
  }

  /** The interpreter of the first PT_INTERP header in [i, n), or NoInterp. */
  function InterpFrom(phdrs: seq<Phdr>, i: nat, n: nat, first: Phdr, bias: nat): (r: Option<Interp>)
    requires i <= n <= |phdrs|
    decreases n - i
  {
    if i == n then Some(NoInterp)
    else if phdrs[i].ptype == PT_INTERP then InterpOf(phdrs[i], first, bias)
    else InterpFrom(phdrs, i + 1, n, first, bias)
  }

  // ---------------------------------------------------------------------
  // LoadElfFile

  /**
   * What LoadElfFile does with a header, the program-header array read
   * from the file, the page size 2^pageShift and the address the first
   * mmap returns: a panic with its reason, or the LoadInfo and the memory
   * operations issued after the first mapping.
   */
  function LoadSpec(ehdr: Ehdr, phdrs: seq<Phdr>, pageShift: nat, mapping: nat): LoadOutcome
    requires |phdrs| == MaxPhnum
  {
    match MachineAsWritten(ehdr)
    case None => Panic(WrongArchitecture)
    case Some(machine) =>
      if ehdr.phnum > MaxPhnum || ehdr.phnum < 1 then Panic(BadPhnum)
      else if ehdr.etype != ET_DYN then Panic(NotDyn)
      else
        var i := FirstLoadFrom(phdrs, 0, ehdr.phnum);
        if i == ehdr.phnum then Panic(NoLoadSegment)
        else LoadFrom(ehdr, phdrs, pageShift, mapping, machine, i, LastLoadDown(phdrs, i, ehdr.phnum - 1))
  }

  /** LoadElfFile from the first mmap on, once the first and last PT_LOAD are known. */
  function LoadFrom(ehdr: Ehdr, phdrs: seq<Phdr>, pageShift: nat, mapping: nat, machine: nat, i: nat, last: nat): LoadOutcome
    requires 1 <= ehdr.phnum <= |phdrs| && i <= last < ehdr.phnum
  {
    var first := phdrs[i];
    if mapping == MapFailedAddr then Panic(MapFailed)
    else
      var bias := LoadBias(mapping, first, pageShift);
      if !PhdrCheckPasses(ehdr, first) then Panic(PhdrsNotInFirstLoad)
      else
        match InterpFrom(phdrs, 0, ehdr.phnum, first, bias)
        case None => Panic(InterpTooLong)
        case Some(interp) =>
          Loaded(ResultInfo(ehdr, first, bias, machine, interp), LoadOps(phdrs, i, last, bias, pageShift))
  }

  /** The operations after the first mmap check: the first mapping, its bss, then the other segments. */
  function LoadOps(phdrs: seq<Phdr>, i: nat, last: nat, bias: nat, pageShift: nat): seq<MemOp>
    requires i <= last < |phdrs|
  {
    var first := phdrs[i];
    [MapFile(PageDown(first.vaddr, pageShift), Span(first, phdrs[last]), ProtFromPhdr(first.flags),
             PageDown(first.offset, pageShift), false)]
    + HandleBss(first, bias, pageShift)
    + SegmentsFrom(phdrs, i + 1, last, bias, pageShift, Wrap(first.vaddr + bias + first.memsz))
  }

  /** The LoadInfo handed back: entry and program headers moved by the bias. */
  function ResultInfo(ehdr: Ehdr, first: Phdr, bias: nat, machine: nat, interp: Interp): LoadInfo
  {
    LoadInfo(Wrap(ehdr.entry + bias), bias, Wrap(ehdr.phoff as int - first.offset + first.vaddr + bias),
             ehdr.phnum, machine, interp)
  }

  /** The scan for the first PT_LOAD header. */
  method FindFirstLoad(phdrs: seq<Phdr>, n: nat) returns (i: nat)
    requires n <= |phdrs|
    ensures i == FirstLoadFrom(phdrs, 0, n)
  {
    i := 0;
    while i < n && phdrs[i].ptype != PT_LOAD
      invariant i <= n
      invariant FirstLoadFrom(phdrs, i, n) == FirstLoadFrom(phdrs, 0, n)
    {
      i := i + 1;
    }
  }

  /** The walk down from the last header to the last PT_LOAD (or to the first). */
  method FindLastLoad(phdrs: seq<Phdr>, first: nat, n: nat) returns (last: nat)
    requires first < n <= |phdrs|
    ensures last == LastLoadDown(phdrs, first, n - 1)
  {
    last := n - 1;
    while last > first && phdrs[last].ptype != PT_LOAD
      invariant first <= last < n
      invariant LastLoadDown(phdrs, first, last) == LastLoadDown(phdrs, first, n - 1)
    {
      last := last - 1;
    }
  }

  /** The loop over the headers after the first PT_LOAD, up to the last. */
  method MapSegments(phdrs: seq<Phdr>, i: nat, last: nat, bias: nat, pageShift: nat, end0: nat) returns (ops: seq<MemOp>)
    requires i <= last < |phdrs|
    ensures ops == SegmentsFrom(phdrs, i + 1, last, bias, pageShift, end0)
  {
    ops := [];
    var lastEnd := end0;
    var j := i + 1;
    while j <= last
      invariant i + 1 <= j <= last + 1
      invariant ops + SegmentsFrom(phdrs, j, last, bias, pageShift, lastEnd) == SegmentsFrom(phdrs, i + 1, last, bias, pageShift, end0)
    {
      var step := SegmentStep(phdrs[j], bias, pageShift, lastEnd);
      ops, lastEnd := ops + step.0, step.1;
      j := j + 1;
    }
    assert ops + [] == ops;
  }

  /** The scan for the first PT_INTERP header. */
  method FindInterp(phdrs: seq<Phdr>, n: nat, first: Phdr, bias: nat) returns (r: Option<Interp>)
    requires n <= |phdrs|
    ensures r == InterpFrom(phdrs, 0, n, first, bias)
  {
    var i := 0;
    while i < n
      invariant i <= n
      invariant InterpFrom(phdrs, i, n, first, bias) == InterpFrom(phdrs, 0, n, first, bias)
    {
      if phdrs[i].ptype == PT_INTERP {
        r := InterpOf(phdrs[i], first, bias);
        return;
      }
      i := i + 1;
    }
    r := Some(NoInterp);
  }

  /**
   * LoadElfFile on the header and program headers read from the file,
   * the page size 2^pageShift and the address the first mmap returns.
   */
  method LoadElfFile(ehdr: Ehdr, phdrs: seq<Phdr>, pageShift: nat, mapping: nat) returns (out: LoadOutcome)
    requires |phdrs| == MaxPhnum
    ensures out == LoadSpec(ehdr, phdrs, pageShift, mapping)
  {
    var machine := MachineAsWritten(ehdr);
    if machine.None? {
      return Panic(WrongArchitecture);
    }
    if ehdr.phnum > MaxPhnum || ehdr.phnum < 1 {
      return Panic(BadPhnum);
    }
    if ehdr.etype != ET_DYN {
      return Panic(NotDyn);
    }
    var i := FindFirstLoad(phdrs, ehdr.phnum);
    if i == ehdr.phnum {
      return Panic(NoLoadSegment);
    }
    var last := FindLastLoad(phdrs, i, ehdr.phnum);
    out := MapImage(ehdr, phdrs, pageShift, mapping, machine.value, i, last);
  }

  /** LoadElfFile from the first mmap on. */
  method MapImage(ehdr: Ehdr, phdrs: seq<Phdr>, pageShift: nat, mapping: nat, machine: nat, i: nat, last: nat)
    returns (out: LoadOutcome)
    requires 1 <= ehdr.phnum <= |phdrs| && i <= last < ehdr.phnum
    ensures out == LoadFrom(ehdr, phdrs, pageShift, mapping, machine, i, last)
  {
    var first := phdrs[i];
    if mapping == MapFailedAddr {
      return Panic(MapFailed);
    }
    var bias := LoadBias(mapping, first, pageShift);
    if !PhdrCheckPasses(ehdr, first) {
      return Panic(PhdrsNotInFirstLoad);
    }
    var ops := [MapFile(PageDown(first.vaddr, pageShift), Span(first, phdrs[last]), ProtFromPhdr(first.flags),
                        PageDown(first.offset, pageShift), false)];
    ops := ops + HandleBss(first, bias, pageShift);
    var rest := MapSegments(phdrs, i, last, bias, pageShift, Wrap(first.vaddr + bias + first.memsz));
    ops := ops + rest;
    var interp := FindInterp(phdrs, ehdr.phnum, first, bias);
    if interp.None? {
      return Panic(InterpTooLong);
    }
    out := Loaded(ResultInfo(ehdr, first, bias, machine, interp.value), ops);
  }

  // ---------------------------------------------------------------------
  // Properties of LoadElfFile

  /** A header count outside [1, MAX_PHNUM] or a type other than ET_DYN is a panic. */
  lemma HeaderChecks(ehdr: Ehdr, phdrs: seq<Phdr>, pageShift: nat, mapping: nat)
    requires |phdrs| == MaxPhnum
    ensures LoadSpec(ehdr, phdrs, pageShift, mapping).Loaded? ==>
              1 <= ehdr.phnum <= MaxPhnum && ehdr.etype == ET_DYN
    ensures MachineAsWritten(ehdr).Some? && !(1 <= ehdr.phnum <= MaxPhnum) ==>
              LoadSpec(ehdr, phdrs, pageShift, mapping) == Panic(BadPhnum)
    ensures MachineAsWritten(ehdr).Some? && 1 <= ehdr.phnum <= MaxPhnum && ehdr.etype != ET_DYN ==>
              LoadSpec(ehdr, phdrs, pageShift, mapping) == Panic(NotDyn)
  {
  }

  /** Among the first e_phnum headers, having no PT_LOAD is a panic. */
  lemma NoLoadPanics(ehdr: Ehdr, phdrs: seq<Phdr>, pageShift: nat, mapping: nat)
    requires |phdrs| == MaxPhnum
    requires MachineAsWritten(ehdr).Some? && 1 <= ehdr.phnum <= MaxPhnum && ehdr.etype == ET_DYN
    requires forall j :: 0 <= j < ehdr.phnum ==> phdrs[j].ptype != PT_LOAD
    ensures LoadSpec(ehdr, phdrs, pageShift, mapping) == Panic(NoLoadSegment)
  {
  }

  /**
   * A successful load: the first mapping spans from the first PT_LOAD to
   * the end of the last one and sits at the first one's page; the load
   * bias moves that page to the mapping; entry and program-header
   * addresses are shifted by the bias; e_phnum is passed through; and the
   * first PT_LOAD holds the program-header table of the file.
   */
  lemma LoadedAddresses(ehdr: Ehdr, phdrs: seq<Phdr>, pageShift: nat, mapping: nat)
    requires |phdrs| == MaxPhnum
    requires LoadSpec(ehdr, phdrs, pageShift, mapping).Loaded?
    ensures 1 <= ehdr.phnum <= MaxPhnum
    ensures var out := LoadSpec(ehdr, phdrs, pageShift, mapping);
      var i := FirstLoadFrom(phdrs, 0, ehdr.phnum);
      var last := LastLoadDown(phdrs, i, ehdr.phnum - 1);
      i <= last < ehdr.phnum && phdrs[i].ptype == PT_LOAD && phdrs[last].ptype == PT_LOAD
      && var bias := LoadBias(mapping, phdrs[i], pageShift);
         out.info.base == bias
         && out.info.addr == Wrap(ehdr.entry + bias)
         && out.info.phdr == Wrap(ehdr.phoff as int - phdrs[i].offset + phdrs[i].vaddr + bias)
         && out.info.phnum == ehdr.phnum
         && phdrs[i].offset <= ehdr.phoff && phdrs[i].filesz >= Wrap(ehdr.phoff + ehdr.phnum * PhdrSize)
         && out.ops[0] == MapFile(PageDown(phdrs[i].vaddr, pageShift), Span(phdrs[i], phdrs[last]),
                                  ProtFromPhdr(phdrs[i].flags), PageDown(phdrs[i].offset, pageShift), false)
  {
    var i := FirstLoadFrom(phdrs, 0, ehdr.phnum);
    var last := LastLoadDown(phdrs, i, ehdr.phnum - 1);
    assert LoadSpec(ehdr, phdrs, pageShift, mapping)
        == LoadFrom(ehdr, phdrs, pageShift, mapping, MachineAsWritten(ehdr).value, i, last);
  }

  /**
   * Once the header checks pass, a PT_LOAD exists and the reservation
   * mapping succeeds, the load panics with PhdrsNotInFirstLoad exactly
   * when the first PT_LOAD does not hold the program-header table.
   */
  lemma PhdrsInFirstLoad(ehdr: Ehdr, phdrs: seq<Phdr>, pageShift: nat, mapping: nat)
    requires |phdrs| == MaxPhnum
    requires MachineAsWritten(ehdr).Some? && 1 <= ehdr.phnum <= MaxPhnum && ehdr.etype == ET_DYN
    requires FirstLoadFrom(phdrs, 0, ehdr.phnum) < ehdr.phnum && mapping != MapFailedAddr
    ensures var first := phdrs[FirstLoadFrom(phdrs, 0, ehdr.phnum)];
      LoadSpec(ehdr, phdrs, pageShift, mapping) == Panic(PhdrsNotInFirstLoad)
      <==> !(first.offset <= ehdr.phoff && first.filesz >= Wrap(ehdr.phoff + ehdr.phnum * PhdrSize))
  {
    var i := FirstLoadFrom(phdrs, 0, ehdr.phnum);
    var last := LastLoadDown(phdrs, i, ehdr.phnum - 1);
    assert LoadSpec(ehdr, phdrs, pageShift, mapping)
        == LoadFrom(ehdr, phdrs, pageShift, mapping, MachineAsWritten(ehdr).value, i, last);
  }

  /** The bias maps the first segment's page to the address the mapping returned. */
  lemma BiasMapsFirstPage(mapping: nat, first: Phdr, pageShift: nat)
    requires mapping < Two64
    ensures Wrap(PageDown(first.vaddr, pageShift) + LoadBias(mapping, first, pageShift)) == mapping
  {
    var d := PageDown(first.vaddr, pageShift);
    var b := LoadBias(mapping, first, pageShift);
    DivMod(mapping as int - d, Two64);
    assert d + b == mapping + Two64 * (-((mapping as int - d) / Two64));
    DivUnique(d + b, Two64, -((mapping as int - d) / Two64), mapping);
  }

  /**
   * The hole between the end of the previous segment's pages and the
   * start of a PT_LOAD segment's pages is protected PROT_NONE before the
   * segment is mapped at its page with its own protection.
   */
  lemma GapProtected(ph: Phdr, bias: nat, pageShift: nat, lastEnd: nat)
    requires ph.ptype == PT_LOAD
    ensures var step := SegmentStep(ph, bias, pageShift, lastEnd);
      var gapStart, start := PageUp(lastEnd, pageShift), PageDown(Wrap(ph.vaddr + bias), pageShift);
      (start > gapStart ==> step.0[0] == Protect(gapStart, start - gapStart, PROT_NONE)
                            && step.0[1].MapFile? && step.0[1].start == start)
      && (start <= gapStart ==> step.0[0].MapFile? && step.0[0].start == start)
      && (forall op :: op in step.0 && op.Protect? ==> op.prot == PROT_NONE && op.start + op.length == start)
      && step.1 == Wrap(ph.vaddr + bias + ph.memsz)
  {
  }

  /** Headers that are not PT_LOAD between the first and last PT_LOAD issue nothing. */
  lemma SkipsOtherHeaders(ph: Phdr, bias: nat, pageShift: nat, lastEnd: nat)
    requires ph.ptype != PT_LOAD
    ensures SegmentStep(ph, bias, pageShift, lastEnd) == ([], lastEnd)
  {
  }
}
