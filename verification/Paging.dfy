/** kernel/src/arch/x86/mmu/VMM.c: identity paging of the first 4 MB, built from two allocated frames. */
module Paging {
  import opened Words
  import opened Bitset
  import opened Ledger
  import opened Sets
  import opened Frames
  import opened FrameRuns
  import opened Memset
  import opened PMM

  const PAGE_TABLE_ENTRIES: nat := 1024
  const LOW_MEMORY_PAGES: nat := 256   // 1024 * 1024 / PMM_FRAME_SIZE

  const PRESENT: nat := 1
  const WRITABLE: nat := 2

  // ----- the processor -----

  datatype Translation = Translation(physical: nat, writable: bool, user: bool)

  /** The page walk of section 4.3 of the Intel SDM, Volume 3A (32-bit paging, 4 KB pages): bits 31:22
      of the address select a directory entry, bits 21:12 a table entry; bit 0 of an entry is P, bit 1
      R/W, bit 2 U/S, bits 31:12 the frame.  None is a page fault. */
  function Walk(mem: seq<Word>, cr3: nat, v: Word): Option<Translation> {
    var pdeIndex := cr3 / 4096 * 1024 + v / 0x40_0000;
    if pdeIndex >= |mem| || !Bit(mem[pdeIndex], 0) then None
    else
      var pde := mem[pdeIndex];
      var pteIndex := pde / 4096 * 1024 + v / 4096 % 1024;
      if pteIndex >= |mem| || !Bit(mem[pteIndex], 0) then None
      else
        var pte := mem[pteIndex];
        Some(Translation(pte / 4096 * 4096 + v % 4096, Bit(pde, 1) && Bit(pte, 1), Bit(pde, 2) && Bit(pte, 2)))
  }

  // ----- the tables -----

  /** Frame d holds a directory whose only present entry is the table in frame t, and frame t maps
      its page i to frame i; both entries are present, writable, supervisor. */
  predicate IdentityTables(mem: seq<Word>, d: nat, t: nat) {
    && d < MAX_FRAMES && t < MAX_FRAMES && 1024 * (d + 1) <= |mem| && 1024 * (t + 1) <= |mem|
    && mem[1024 * d] == 4096 * t + 3
    && (forall i :: 1024 * d < i < 1024 * d + 1024 ==> mem[i] == 0)
    && (forall i :: 1024 * t <= i < 1024 * t + 1024 ==> mem[i] == 4096 * (i - 1024 * t) + 3)
  }

  lemma EntryFields(f: nat)
    ensures (4096 * f + 3) / 4096 == f
    ensures Bit(4096 * f + 3, 0) && Bit(4096 * f + 3, 1) && !Bit(4096 * f + 3, 2)
  {
    assert (4096 * f + 3) / 2 == 2048 * f + 1;
    assert (2048 * f + 1) / 2 == 1024 * f;
    assert !Bit(1024 * f, 0);
    assert Bit(2048 * f + 1, 1) == Bit(1024 * f, 0);
  }

  /** The processor maps every address below 4 MB to itself, for supervisor reads and writes only,
      and faults on every other address. */
  lemma WalkIsIdentity(mem: seq<Word>, d: nat, t: nat, v: Word)
    requires IdentityTables(mem, d, t)
    ensures Walk(mem, 4096 * d, v) == if v < 0x40_0000 then Some(Translation(v, true, false)) else None
  {
    var pdeIndex := 4096 * d / 4096 * 1024 + v / 0x40_0000;
    assert 4096 * d / 4096 == d;
    if v < 0x40_0000 {
      EntryFields(t);
      EntryFields(v / 4096);
      assert pdeIndex == 1024 * d;
      assert v / 4096 % 1024 == v / 4096;
      assert mem[t * 1024 + v / 4096] == 4096 * (v / 4096) + 3;
    } else {
      assert mem[pdeIndex] == 0;
    }
  }

  /** The kernel's tables keep working: over any permitted run of the allocator that neither frees nor
      overwrites the two frames, every translation stays the same. */
  lemma PagingSurvivesRuns(m: Machine, es: seq<Event>, d: nat, t: nat, v: Word)
    requires m.Inv() && PermittedRun(m, es) && Owned(m.live, d, 1) && Owned(m.live, t, 1) && IdentityTables(m.mem, d, t)
    requires forall e :: e in es ==> !Touches(e, d, 1) && !Touches(e, t, 1)
    ensures Walk(Run(m, es).mem, 4096 * d, v)
            == if v < 0x40_0000 then Some(Translation(v, true, false)) else None
  {
    LiveBlockIsolated(m, es, d, 1);
    LiveBlockIsolated(m, es, t, 1);
    WalkIsIdentity(Run(m, es).mem, d, t, v);
  }

  /** Whatever is stored in live frames, the allocator's state stays in order. */
  lemma LiveContentsDoNotMatter(m: Machine, mem: seq<Word>)
    requires m.Inv() && |mem| == |m.mem|
    requires forall i: nat :: i < |mem| && mem[i] != m.mem[i] ==> Covered(m.live, i / FRAME_WORDS)
    ensures m.(mem := mem).Inv() && m.(mem := mem).View() == m.View()
  {
    forall x: nat | x < m.total
      ensures InStore(m.mem, m.base, x) && Test(mem, m.base, x) == Test(m.mem, m.base, x)
    {
      BitmapWordFrame(m, x);
      assert !Covered(m.live, (m.base + x / BITSET_SIZE) / FRAME_WORDS);
    }
    assert m.(mem := mem).View().marked == m.View().marked;
  }

  // ----- VMM_init -----

  /** Two memories differ at most in frames d and t. */
  predicate SameElsewhere(m1: seq<Word>, m2: seq<Word>, d: nat, t: nat) {
    |m1| == |m2| && forall i: nat :: i < |m1| && i / 1024 != d && i / 1024 != t ==> m1[i] == m2[i]
  }

  /** The stores of VMM_init: clear both frames, fill the table in two loops, enter it in the directory. */
  method FillTables(ram: array<Word>, d: nat, t: nat)
    requires d != t && d < MAX_FRAMES && t < MAX_FRAMES
    requires 1024 * (d + 1) <= ram.Length && 1024 * (t + 1) <= ram.Length
    modifies ram
    ensures IdentityTables(ram[..], d, t)
    ensures SameElsewhere(ram[..], old(ram[..]), d, t)
  {
    ghost var mem := ram[..];
    MemsetZero(ram, 1024 * d, 4096);
    ClearedFrame(mem, d);
    ghost var mem1 := ram[..];
    MemsetZero(ram, 1024 * t, 4096);
    ClearedFrame(mem1, t);
    ghost var mem2 := ram[..];
    FillEntries(ram, t, 0, LOW_MEMORY_PAGES);
    FillEntries(ram, t, LOW_MEMORY_PAGES, PAGE_TABLE_ENTRIES);
    ram[1024 * d] := MakeEntry(t);
  }

  lemma ClearedFrame(mem: seq<Word>, f: nat)
    requires 1024 * (f + 1) <= |mem|
    ensures forall i :: 0 <= i < |mem| ==> ZeroBytes(mem, 1024 * f, 4096)[i] == if i / 1024 == f then 0 else mem[i]
  {
    forall i: nat | i < |mem|
      ensures ZeroBytes(mem, 1024 * f, 4096)[i] == if i / 1024 == f then 0 else mem[i]
    {
      if i / 1024 == f {
        ZeroWholeWords(mem, 1024 * f, 1024, i);
      } else {
        ZeroBytesFrame(mem, 1024 * f, 4096, i);
      }
    }
  }

  /** (f << 12) | PRESENT | WRITABLE */
  method MakeEntry(f: nat) returns (e: Word)
    requires f < MAX_FRAMES
    ensures e == 4096 * f + 3
  {
    OrLowFlags(1024 * f);
    e := BitOr(BitOr(f * FRAME_SIZE, PRESENT), WRITABLE);
  }

  /** page_table->entries[i] = PTE_FRAME(i) | PTE_PRESENT | PTE_WRITABLE for lo <= i < hi */
  method FillEntries(ram: array<Word>, t: nat, lo: nat, hi: nat)
    requires lo <= hi <= 1024 && 1024 * (t + 1) <= ram.Length
    modifies ram
    ensures forall k :: 0 <= k < ram.Length ==>
              ram[k] == if 1024 * t + lo <= k < 1024 * t + hi then 4096 * (k - 1024 * t) + 3 else old(ram[k])
  {
    var i := lo;
    while i < hi
      invariant lo <= i <= hi
      invariant forall k :: 0 <= k < ram.Length ==>
                  ram[k] == if 1024 * t + lo <= k < 1024 * t + i then 4096 * (k - 1024 * t) + 3 else old(ram[k])
    {
      ram[1024 * t + i] := MakeEntry(i);
      i := i + 1;
    }
  }

  lemma OneFrameAddress(m: Machine)
    requires m.WellFormed()
    ensures match Pick(m, 1)
      case None => Frames.Malloc(m, FRAME_SIZE) == (m, 0)
      case Some(p) => Frames.Malloc(m, FRAME_SIZE) == (TakeFrames(m, p, 1), 4096 * p)
  {
    assert SizeToFrames(FRAME_SIZE) == 1;
  }

  /** A one-frame request is sound: the frame it yields is new. */
  lemma OneFrame(m: Machine)
    requires m.Inv() && Pick(m, 1).Some?
    ensures var p := Pick(m, 1).value;
            p < m.total && p !in m.live && TakeFrames(m, p, 1).Inv()
  {
    SafeRequestIsClear(m, 1);
    TakeClearBlock(m, Pick(m, 1).value, 1);
  }

  /** The frames of directory and table, if both calls of VMM_init yield an address other than NULL. */
  function TwoFrames(m: Machine): (r: Option<(nat, nat)>)
    requires m.WellFormed()
  {
    match Pick(m, 1)
    case None => None
    case Some(d) =>
      TakeFramesTakes(m, d, 1);
      match Pick(TakeFrames(m, d, 1), 1)
      case None => None
      case Some(t) => if d == 0 || t == 0 then None else Some((d, t))
  }

  /** The allocator after the calls. */
  function AfterCalls(m: Machine): (r: Machine)
    requires m.WellFormed()
  {
    match Pick(m, 1)
    case None => m
    case Some(d) =>
      TakeFramesTakes(m, d, 1);
      match Pick(TakeFrames(m, d, 1), 1)
      case None => TakeFrames(m, d, 1)
      case Some(t) => TakeFrames(TakeFrames(m, d, 1), t, 1)
  }

  class AddressSpace {
    const pmm: FrameAllocator
    var kernelDirectory: nat    // g_pKernel_directory, 0 for NULL
    var currentDirectory: nat   // g_pCurrent_directory
    ghost var cr3: nat
    ghost var pagingOn: bool    // CR0.PG

    constructor (pmm: FrameAllocator)
      ensures this.pmm == pmm && kernelDirectory == 0 && currentDirectory == 0 && !pagingOn
    {
      this.pmm := pmm;
      kernelDirectory, currentDirectory := 0, 0;
      cr3, pagingOn := 0, false;
    }

    /** VMM_switch_page_directory */
    method SwitchPageDirectory(directory: nat) returns (ok: bool)
      modifies this`currentDirectory, this`cr3
      ensures ok <==> directory != 0
      ensures if ok then currentDirectory == cr3 == directory
              else currentDirectory == old(currentDirectory) && cr3 == old(cr3)
    {
      if directory == 0 {
        return false;
      }
      currentDirectory := directory;
      cr3 := directory;
      ok := true;
    }

    /** The allocation half of VMM_init. */
    method GetFrames() returns (pageTable: nat)
      requires pmm.State().Inv()
      modifies this`kernelDirectory, pmm`usedFrames, pmm`live, pmm.ram
      ensures pmm.State() == AfterCalls(old(pmm.State())) && pmm.State().Inv()
      ensures match TwoFrames(old(pmm.State()))
        case None => kernelDirectory == 0 || pageTable == 0
        case Some((d, t)) =>
          && kernelDirectory == 4096 * d && pageTable == 4096 * t && 0 < d && 0 < t && d != t
          && Owned(pmm.State().live, d, 1) && Owned(pmm.State().live, t, 1) && d < pmm.totalFrames && t < pmm.totalFrames
    {
      OneFrameAddress(pmm.State());
      if Pick(pmm.State(), 1).Some? { OneFrame(pmm.State()); }
      kernelDirectory := pmm.Malloc(FRAME_SIZE);
      OneFrameAddress(pmm.State());
      if Pick(pmm.State(), 1).Some? { OneFrame(pmm.State()); }
      pageTable := pmm.Malloc(FRAME_SIZE);
    }

    /** The second half of VMM_init: fill the tables, load CR3, turn paging on. */
    method EnterTables(pageTable: nat, ghost d: nat, ghost t: nat)
      requires pmm.State().Inv() && Owned(pmm.State().live, d, 1) && Owned(pmm.State().live, t, 1) && d != t
      requires 0 < d < pmm.totalFrames && t < pmm.totalFrames
      requires kernelDirectory == 4096 * d && pageTable == 4096 * t
      modifies this`currentDirectory, this`cr3, this`pagingOn, pmm.ram
      ensures pmm.State().Inv() && pmm.State() == old(pmm.State()).(mem := pmm.ram[..])
      ensures pagingOn && cr3 == currentDirectory == 4096 * d
      ensures IdentityTables(pmm.ram[..], d, t)
      ensures SameElsewhere(pmm.ram[..], old(pmm.ram[..]), d, t)
    {
      ghost var m := pmm.State();
      assert kernelDirectory / 4096 == d && pageTable / 4096 == t;
      FillTables(pmm.ram, kernelDirectory / 4096, pageTable / 4096);
      TableStoresAreLive(m, pmm.ram[..], d, t);
      var switched := SwitchPageDirectory(kernelDirectory);
      if !switched {
        assert false;
      }
      pagingOn := true;
    }

    /** VMM_init.  It succeeds exactly when both frames were found, neither of them frame 0; then paging
        is on and the tables reached from CR3 are identity tables.  Otherwise what was found stays
        allocated. */
    method Init() returns (ok: bool)
      requires pmm.State().Inv()
      modifies this, pmm`usedFrames, pmm`live, pmm.ram
      ensures pmm.State().Inv()
      ensures match TwoFrames(old(pmm.State()))
        case None => !ok && pmm.State() == AfterCalls(old(pmm.State())) && pagingOn == old(pagingOn) && cr3 == old(cr3)
        case Some((d, t)) =>
          var m := AfterCalls(old(pmm.State()));
          && ok && pagingOn && cr3 == kernelDirectory == currentDirectory == 4096 * d && d != t
          && pmm.State() == m.(mem := pmm.ram[..]) && Owned(m.live, d, 1) && Owned(m.live, t, 1)
          && IdentityTables(pmm.ram[..], d, t)
          && (forall i: nat :: i < pmm.ram.Length && i / 1024 != d && i / 1024 != t ==> pmm.ram[i] == m.mem[i])
    {
      ghost var m := pmm.State();
      var pageTable := GetFrames();
      if pageTable == 0 || kernelDirectory == 0 {
        return false;
      }
      EnterTables(pageTable, TwoFrames(m).value.0, TwoFrames(m).value.1);
      ok := true;
    }
  }

  lemma TableStoresAreLive(m: Machine, mem: seq<Word>, d: nat, t: nat)
    requires m.Inv() && Owned(m.live, d, 1) && Owned(m.live, t, 1) && SameElsewhere(mem, m.mem, d, t)
    ensures m.(mem := mem).Inv()
  {
    assert d <= d < d + m.live[d] && t <= t < t + m.live[t];
    assert Covered(m.live, d) && Covered(m.live, t);
    LiveContentsDoNotMatter(m, mem);
  }
}
