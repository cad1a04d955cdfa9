/** kernel/src/_start.c, the memory part: PMM_init, then VMM_init; from the memory map to paging. */
module Boot {
  import opened Words
  import opened Bitset
  import opened Ledger
  import opened Sets
  import opened Frames
  import opened PMM
  import opened Paging

  // ----- the search for one frame, on the set of used frames -----

  /** The outcome of bitset_find for one frame, from candidate p on. */
  function SearchOne(used: set<nat>, total: nat, p: nat): Option<nat>
    decreases Candidates(total) - p
  {
    if p >= Candidates(total) then None
    else if p in used then SearchOne(used, total, p + 1)
    else if Window(p) >= total then None
    else if {Window(p), Window(p) + 1} <= used then SearchOne(used, total, p + 1)
    else Some(p)
  }

  /** The bits of the frames, and the one behind them, are those of the set. */
  ghost predicate Shows(mem: seq<Word>, b: nat, total: nat, used: set<nat>)
    requires InStore(mem, b, total)
  {
    forall y: nat :: y <= total ==> InStore(mem, b, y) && (Test(mem, b, y) <==> y in used)
  }

  lemma ClearOfTwo(mem: seq<Word>, b: nat, a: nat)
    requires InStore(mem, b, a + 1)
    ensures ClearCount(mem, b, a, 2) >= 1 <==> !(Test(mem, b, a) && Test(mem, b, a + 1))
  {
    assert ClearCount(mem, b, a, 1) == if Test(mem, b, a) then 0 else 1;
  }

  lemma {:induction false} SearchOneIsFind(mem: seq<Word>, b: nat, total: nat, used: set<nat>, p: nat)
    requires InStore(mem, b, total) && Shows(mem, b, total, used)
    ensures FindFrom(mem, b, total, 1, p) == SearchOne(used, total, p)
    decreases Candidates(total) - p
  {
    if p < Candidates(total) {
      SearchOneIsFind(mem, b, total, used, p + 1);
      if Window(p) < total { ClearOfTwo(mem, b, Window(p)); }
    }
  }

  lemma PickOneIsSearch(m: Machine, used: set<nat>)
    requires m.Inv() && Shows(m.mem, m.base, m.total, used)
    ensures Pick(m, 1) == SearchOne(used, m.total, 0)
  {
    SearchOneIsFind(m.mem, m.base, m.total, used, 0);
    match Find(m.mem, m.base, m.total, 1)
    case None =>
    case Some(p) =>
      FindMeaning(m.mem, m.base, m.total, 1, p);
      ClearIsFresh(m, p, 1);
  }

  /** The frames that directory and table get, if boot succeeds. */
  function BootFrames(used: set<nat>, total: nat): Option<(nat, nat)> {
    match SearchOne(used, total, 0)
    case None => None
    case Some(d) =>
      match SearchOne(used + {d}, total, 0)
      case None => None
      case Some(t) => if d == 0 || t == 0 then None else Some((d, t))
  }

  lemma ShowsAfterTake(m: Machine, used: set<nat>, d: nat)
    requires m.WellFormed() && Shows(m.mem, m.base, m.total, used) && InStore(m.mem, m.base, d + 1)
    ensures Shows(SetRange(m.mem, m.base, d, 1), m.base, m.total, used + {d})
  {
    var mem := SetRange(m.mem, m.base, d, 1);
    forall y: nat | y <= m.total ensures InStore(mem, m.base, y) && (Test(mem, m.base, y) <==> y in used + {d}) {
      SetRangeInserts(m.mem, m.base, d, 1, y);
    }
  }

  lemma TwoFramesAreBootFrames(m: Machine, used: set<nat>)
    requires m.Inv() && Shows(m.mem, m.base, m.total, used)
    ensures TwoFrames(m) == BootFrames(used, m.total)
  {
    PickOneIsSearch(m, used);
    if Pick(m, 1).Some? {
      var d := Pick(m, 1).value;
      OneFrame(m);
      ShowsAfterTake(m, used, d);
      PickOneIsSearch(TakeFrames(m, d, 1), used + {d});
    }
  }

  // ----- boot -----

  predicate ReservedAtBoot(es: seq<MemEntry>, size: nat, f: nat) {
    BootReserved(es, KERNEL_HIMEM + size, KERNEL_SEG, size, f)
  }

  /** The frames in use after PMM_init, called as _start.c calls it: with the end of the kernel image,
      KERNEL_SEG and the image's size.  The number behind the last frame stands for the bit the search
      may read there. */
  function BootUsed(es: seq<MemEntry>, size: nat, padBit: bool): (u: set<nat>)
    ensures forall f: nat :: f < TotalFrames(es) ==>
              (f in u <==> ReservedAtBoot(es, size, f))
    ensures forall f :: f in u ==> f <= TotalFrames(es)
    ensures TotalFrames(es) in u <==> padBit
  {
    (set f: nat | f < TotalFrames(es) && ReservedAtBoot(es, size, f))
    + (if padBit then {TotalFrames(es)} else {})
  }

  /** What _start.c takes for granted. */
  predicate BootCall(es: seq<MemEntry>, size: nat, words: nat) {
    var start := KERNEL_HIMEM + size;
    && start < WORD_LIMIT
    && (!Beyond4G(es) ==>
          BootArguments(es, start, KERNEL_SEG, size)
          && FRAME_WORDS * TotalFrames(es) <= words && BitmapAddress(start) / 4 + TotalFrames(es) / 32 < words)
  }

  /** The bit behind the bitmap as PMM_init leaves it. */
  predicate BootPadBit(es: seq<MemEntry>, size: nat, mem: seq<Word>)
    requires BootCall(es, size, |mem|) && !Beyond4G(es)
  {
    PadBit(mem, BitmapAddress(KERNEL_HIMEM + size) / 4, TotalFrames(es))
  }

  /** The memory part of _start_init.  It panics exactly for a memory map above 4 GB or when the search
      does not yield two frames other than frame 0; otherwise it ends with the allocator in order, under
      identity paging with directory and table in just these frames. */
  method StartMemory(vmm: AddressSpace, entries: seq<MemEntry>, kernelSize: Word) returns (panicked: bool)
    requires BootCall(entries, kernelSize, vmm.pmm.ram.Length)
    modifies vmm, vmm.pmm, vmm.pmm.ram
    ensures Beyond4G(entries) ==> panicked
    ensures !Beyond4G(entries) ==>
              var used := BootUsed(entries, kernelSize, BootPadBit(entries, kernelSize, old(vmm.pmm.ram[..])));
              match BootFrames(used, TotalFrames(entries))
              case None => panicked
              case Some((d, t)) =>
                var m := vmm.pmm.State();
                && !panicked && m.Inv() && m.total == TotalFrames(entries)
                && m.live == map[d := 1, t := 1] && d != t
                && (forall f: nat :: f < m.total ==> (f in m.reserved <==> f in used))
                && vmm.pagingOn && vmm.cr3 == 4096 * d && IdentityTables(m.mem, d, t)
  {
    panicked := vmm.pmm.Init(entries, KERNEL_HIMEM + kernelSize, KERNEL_SEG, kernelSize);
    if panicked { return; }
    ghost var m := vmm.pmm.State();
    ghost var used := BootUsed(entries, kernelSize, BootPadBit(entries, kernelSize, old(vmm.pmm.ram[..])));
    InitShows(m, used);
    TwoFramesAreBootFrames(m, used);
    var ok := vmm.Init();
    panicked := !ok;
    LiveAfterCalls(m);
  }

  lemma InitShows(m: Machine, used: set<nat>)
    requires m.Inv() && m.live == map[]
    requires forall f: nat :: f < m.total ==> (f in used <==> f in m.reserved)
    requires m.total in used <==> Test(m.mem, m.base, m.total)
    ensures Shows(m.mem, m.base, m.total, used)
  {
    forall y: nat | y < m.total ensures InStore(m.mem, m.base, y) && (Test(m.mem, m.base, y) <==> y in used) {
      assert y in m.View().marked <==> y in m.reserved || Covered(m.live, y);
    }
  }

  lemma LiveAfterCalls(m: Machine)
    requires m.WellFormed() && m.live == map[]
    ensures match TwoFrames(m)
      case None => true
      case Some((d, t)) => AfterCalls(m).live == map[d := 1, t := 1]
  {
  }

  // ----- which machines boot -----

  /** Frame 0, whose address is NULL, is found exactly when it is free and frames 1 and 2, the two that
      the search counts for it, are not both used. */
  lemma ZeroIsFoundExactlyWhen(used: set<nat>, total: nat)
    ensures SearchOne(used, total, 0) == Some(0) <==> total >= BITSET_SIZE && 0 !in used && !({1, 2} <= used)
  {
    assert Window(0) == 1;
    SearchMovesOn(used, total, 1);
  }

  lemma {:induction false} SearchMovesOn(used: set<nat>, total: nat, p: nat)
    ensures SearchOne(used, total, p).Some? ==> SearchOne(used, total, p).value >= p
    decreases Candidates(total) - p
  {
    if p < Candidates(total) { SearchMovesOn(used, total, p + 1); }
  }

  /** The arguments of the boot code see to that for every kernel larger than a page. */
  lemma BootIsNullSafe(es: seq<MemEntry>, size: nat, padBit: bool)
    requires size > 4096 && BootArguments(es, KERNEL_HIMEM + size, KERNEL_SEG, size)
    ensures {1, 2} <= BootUsed(es, size, padBit)
    ensures forall f: nat :: SearchOne(BootUsed(es, size, padBit) + {f}, TotalFrames(es), 0) != Some(0)
  {
    assert InRange(1, 0x1000, size) && InRange(2, 0x1000, size);
    assert ReservedAtBoot(es, size, 1) && ReservedAtBoot(es, size, 2);
    forall f: nat ensures SearchOne(BootUsed(es, size, padBit) + {f}, TotalFrames(es), 0) != Some(0) {
      ZeroIsFoundExactlyWhen(BootUsed(es, size, padBit) + {f}, TotalFrames(es));
    }
  }

  lemma {:induction false} SkipUsed(used: set<nat>, total: nat, p: nat, k: nat)
    requires p <= k && forall f: nat :: p <= f < k ==> f in used
    ensures SearchOne(used, total, p) == SearchOne(used, total, k)
    decreases k - p
  {
    if p < k { SkipUsed(used, total, p + 1, k); }
  }

  /** The layout that the boot code's arguments make: frame 0 perhaps free, the frames from 1 to k used,
      k and the next free.  Directory and table get these two exactly when they are candidates and the
      windows counted for them begin inside the memory; else nothing is found, however much is free. */
  lemma FirstFreeFrames(used: set<nat>, total: nat, k: nat)
    requires k >= 3 && (forall f: nat :: 1 <= f < k ==> f in used) && k !in used && k + 1 !in used
    requires !({Window(k), Window(k) + 1} <= used) && !({Window(k + 1), Window(k + 1) + 1} <= used)
    ensures BootFrames(used, total)
            == if k + 1 < Candidates(total) && Window(k) < total && Window(k + 1) < total then Some((k, k + 1)) else None
  {
    assert Window(0) == 1;
    assert {1, 2} <= used;
    SkipUsed(used, total, 1, k);
    assert SearchOne(used, total, 0) == SearchOne(used, total, k);
    WindowAbove(k + 1);
    SkipUsed(used + {k}, total, 1, k + 1);
    assert {1, 2} <= used + {k};
    assert SearchOne(used + {k}, total, 0) == SearchOne(used + {k}, total, k + 1);
    assert !({Window(k + 1), Window(k + 1) + 1} <= used + {k});
  }

  /** A memory map that says just: so many bytes, all available. */
  function PlainMap(bytes: Word): seq<MemEntry> {
    [MemEntry(0, 0, bytes, 0, 1)]
  }

  lemma PlainMapFrames(bytes: Word)
    ensures !Beyond4G(PlainMap(bytes)) && HighEnd(PlainMap(bytes)) == bytes
    ensures TotalFrames(PlainMap(bytes)) == CeilDiv(bytes, FRAME_SIZE)
    ensures forall f :: !MapReserves(PlainMap(bytes), f)
  {
    var es := PlainMap(bytes);
    assert es[..0] == [] && HighEnd([]) == 0;
  }

  /** The bitmap lies right behind the kernel image at 1 MB, in at most 34 frames. */
  lemma BitmapBehindKernel(size: nat, total: nat, f: nat)
    requires total <= MAX_FRAMES
    requires InRange(f, BitmapAddress(KERNEL_HIMEM + size), CeilDiv(total, FRAMES_PER_BYTE))
    ensures 255 + SizeToFrames(size) <= f < 289 + SizeToFrames(size)
  {
    BitmapAbove(size);
  }

  lemma BitmapAbove(size: nat)
    ensures 0x10_0000 + size <= BitmapAddress(KERNEL_HIMEM + size) < 0x10_0008 + size
  {
    assert Pow2(3) == 8;
    AlignUpMeaning(0x10_0000 + size, 3, 8);
  }

  /** What is used on a plain map: from frame 1 as many frames as the kernel has pages, and the bitmap. */
  lemma PlainMapUsed(bytes: Word, size: nat, padBit: bool, f: nat)
    requires f < TotalFrames(PlainMap(bytes))
    ensures f < 255 + SizeToFrames(size) || 289 + SizeToFrames(size) <= f ==>
              (f in BootUsed(PlainMap(bytes), size, padBit) <==> 1 <= f <= SizeToFrames(size))
  {
    var es := PlainMap(bytes);
    PlainMapFrames(bytes);
    assert InRange(f, 0x1000, size) <==> 1 <= f <= SizeToFrames(size);
    if InRange(f, BitmapAddress(KERNEL_HIMEM + size), BitmapBytes(es)) {
      BitmapBehindKernel(size, TotalFrames(es), f);
    }
  }

  /** The windows counted for the two frames behind n begin in front of the bitmap or behind it. */
  lemma WindowBesideBitmap(n: nat, k: nat)
    requires n < k <= n + 2
    ensures Window(k) < 255 + n || 289 + n <= Window(k)
  {
    var j := k % 32;
    assert Pow2(4) == 16;
    assert Pow2(8) == 16 * Pow2(4);
    assert Pow2(9) == 512;
    if j < 8 { assert Pow2(j) <= 128 by { if j < 7 { Pow2Monotone(j, 7); } } }
    if j > 9 { Pow2Monotone(9, j); }
  }

  lemma WindowIsFree(bytes: Word, size: nat, padBit: bool, k: nat)
    requires SizeToFrames(size) < k <= SizeToFrames(size) + 2
    ensures !({Window(k), Window(k) + 1} <= BootUsed(PlainMap(bytes), size, padBit))
  {
    WindowAbove(k);
    WindowBesideBitmap(SizeToFrames(size), k);
    if Window(k) < TotalFrames(PlainMap(bytes)) { PlainMapUsed(bytes, size, padBit, Window(k)); }
  }

  lemma PlainMapHoldsBitmap(bytes: Word, size: nat)
    requires BootArguments(PlainMap(bytes), KERNEL_HIMEM + size, KERNEL_SEG, size)
    ensures 255 + SizeToFrames(size) <= TotalFrames(PlainMap(bytes)) <= MAX_FRAMES
    ensures SizeToFrames(size) + 2 < Candidates(TotalFrames(PlainMap(bytes)))
  {
    PlainMapFrames(bytes);
    BitmapAbove(size);
  }

  /** On a plain map of any size and with a kernel of any size that fits, boot succeeds exactly when the
      kernel has two pages or more and the windows counted for the two frames behind them begin inside
      the memory; directory and table then get these two frames. */
  lemma PlainMapBootsExactlyWhen(bytes: Word, size: nat, padBit: bool)
    requires BootArguments(PlainMap(bytes), KERNEL_HIMEM + size, KERNEL_SEG, size)
    ensures var n, total := SizeToFrames(size), TotalFrames(PlainMap(bytes));
            BootFrames(BootUsed(PlainMap(bytes), size, padBit), total)
            == if n >= 2 && Window(n + 1) < total && Window(n + 2) < total then Some((n + 1, n + 2)) else None
  {
    var used, total := BootUsed(PlainMap(bytes), size, padBit), TotalFrames(PlainMap(bytes));
    var n := SizeToFrames(size);
    PlainMapHoldsBitmap(bytes, size);
    forall f: nat | f < 255 + n ensures f in used <==> 1 <= f <= n {
      PlainMapUsed(bytes, size, padBit, f);
    }
    if n < 2 {
      assert Window(0) == 1;
      assert SearchOne(used, total, 0) == Some(0);
    } else {
      WindowIsFree(bytes, size, padBit, n + 1);
      WindowIsFree(bytes, size, padBit, n + 2);
      FirstFreeFrames(used, total, n + 1);
    }
  }

  /** In numbers, for a kernel of up to 120 KB, which is more than the boot loader can load: n pages
      need more than 2^(n + 2) frames.  With 128 MB the largest kernel that boots has 48 KB. */
  lemma SmallKernelBootsExactlyWhen(bytes: Word, size: nat, padBit: bool)
    requires BootArguments(PlainMap(bytes), KERNEL_HIMEM + size, KERNEL_SEG, size) && size <= 30 * 4096
    ensures var n, total := SizeToFrames(size), TotalFrames(PlainMap(bytes));
            && (BootFrames(BootUsed(PlainMap(bytes), size, padBit), total).Some? <==> n >= 2 && Pow2(n + 2) < total)
            && (total == 32768 ==>
                  (BootFrames(BootUsed(PlainMap(bytes), size, padBit), total).Some? <==> 4096 < size <= 49152))
  {
    var n, total := SizeToFrames(size), TotalFrames(PlainMap(bytes));
    PlainMapBootsExactlyWhen(bytes, size, padBit);
    PlainMapHoldsBitmap(bytes, size);
    assert n <= 30;
    SmallWindows(n, total);
    assert Pow2(15) == 32768 by { Pow2Of32(); }
    if n < 13 { Pow2Monotone(n + 2, 15); }
    if n > 13 { Pow2Monotone(15, n + 2); }
    PagesOfSize(size);
  }

  /** So boot is reached and succeeds: 128 MB, all available, and any kernel of 4 to 48 KB. */
  lemma MachineThatBoots(size: nat, padBit: bool)
    requires 4096 < size <= 49152
    ensures var es, n := PlainMap(0x800_0000), SizeToFrames(size);
            BootCall(es, size, 0x200_0000) && !Beyond4G(es)
            && BootFrames(BootUsed(es, size, padBit), TotalFrames(es)) == Some((n + 1, n + 2))
  {
    PlainMapFrames(0x800_0000);
    BitmapAbove(size);
    SmallKernelBootsExactlyWhen(0x800_0000, size, padBit);
    PlainMapBootsExactlyWhen(0x800_0000, size, padBit);
  }

  lemma PagesOfSize(size: nat)
    ensures SizeToFrames(size) >= 2 <==> size > 4096
    ensures SizeToFrames(size) <= 12 <==> size <= 49152
  {
  }

  lemma SmallWindows(n: nat, total: nat)
    requires n <= 30 && total <= MAX_FRAMES
    ensures Window(n + 1) < total && Window(n + 2) < total <==> Pow2(n + 2) < total
  {
    FirstWordWindow(n + 1);
    if n < 30 {
      FirstWordWindow(n + 2);
      Pow2Monotone(n + 1, n + 2);
    } else {
      HighestPower();
    }
  }

  lemma FirstWordWindow(j: nat)
    requires j < 32
    ensures Window(j) == Pow2(j)
  {
    var q, r := j / BITSET_SIZE, j % BITSET_SIZE;
    assert q == 0 && r == j;
    assert Window(j) == q * BITSET_SIZE + Pow2(r);
  }

  lemma HighestPower()
    ensures Pow2(31) > MAX_FRAMES && Pow2(32) > MAX_FRAMES
  {
    Pow2Of32();
    assert Pow2(32) == 2 * Pow2(31);
  }
}
