/** kernel/src/arch/x86/mmu/PMM.c on a real memory: the bitmap lives in the memory it manages. */
module PMM {
  import opened Words
  import opened Bitset
  import opened Ledger
  import opened Sets
  import opened Frames
  import opened Memset

  const MEM_MAP_TYPE_AVAILABLE: nat := 1
  const FRAMES_PER_BYTE: nat := 8

  /** boot_MEM_MAP_Info_Entry_t */
  datatype MemEntry = MemEntry(baseLo: Word, baseHi: Word, lengthLo: Word, lengthHi: Word, kind: Word)

  function HighEnd(es: seq<MemEntry>): (r: nat)
    ensures forall e :: e in es ==> e.baseLo + e.lengthLo <= r
    ensures r == 0 || exists e :: e in es && e.baseLo + e.lengthLo == r
  {
    if es == [] then 0
    else
      var r := HighEnd(es[..|es| - 1]);
      var e := es[|es| - 1];
      assert es == es[..|es| - 1] + [e];
      if e.baseLo + e.lengthLo > r then e.baseLo + e.lengthLo else r
  }

  lemma HighEndStep(es: seq<MemEntry>, i: nat)
    requires i < |es|
    ensures var end := es[i].baseLo + es[i].lengthLo; var h := HighEnd(es[..i]);
            HighEnd(es[..i + 1]) == if end > h then end else h
    ensures Beyond4G(es[..i + 1]) <==> Beyond4G(es[..i]) || es[i].lengthHi != 0 || es[i].baseHi != 0
  {
    assert es[..i + 1] == es[..i] + [es[i]];
    assert es[..i + 1][..i] == es[..i];
  }

  function TotalFrames(es: seq<MemEntry>): nat {
    CeilDiv(HighEnd(es), FRAME_SIZE)
  }

  function BitmapBytes(es: seq<MemEntry>): nat {
    CeilDiv(TotalFrames(es), FRAMES_PER_BYTE)
  }

  function BitmapAddress(physicalMemStart: nat): nat {
    AlignUp(physicalMemStart, FRAMES_PER_BYTE)
  }

  predicate Beyond4G(es: seq<MemEntry>) {
    exists e :: e in es && (e.lengthHi != 0 || e.baseHi != 0)
  }

  /** Frame f meets the byte range, rounded outward to whole frames. */
  predicate InRange(f: nat, start: nat, length: nat) {
    start / FRAME_SIZE <= f < CeilDiv(start + length, FRAME_SIZE)
  }

  predicate MapReserves(es: seq<MemEntry>, f: nat) {
    exists e :: e in es && e.kind != MEM_MAP_TYPE_AVAILABLE && InRange(f, e.baseLo, e.lengthLo)
  }

  /** What PMM_init must leave used: the frames of a non-available entry, of the kernel range and of
      the bitmap itself. */
  predicate BootReserved(es: seq<MemEntry>, start: nat, kernelStart: nat, kernelSize: nat, f: nat) {
    || MapReserves(es, f)
    || InRange(f, kernelStart, kernelSize)
    || InRange(f, BitmapAddress(start), BitmapBytes(es))
  }

  /** What PMM_init takes for granted about its arguments: a 32-bit memory, and the kernel and the
      bitmap inside it. */
  predicate BootArguments(es: seq<MemEntry>, start: nat, kernelStart: nat, kernelSize: nat) {
    && HighEnd(es) <= WORD_LIMIT
    && kernelStart + kernelSize < WORD_LIMIT
    && CeilDiv(kernelStart + kernelSize, FRAME_SIZE) <= TotalFrames(es)
    && BitmapAddress(start) + BitmapBytes(es) < WORD_LIMIT
    && CeilDiv(BitmapAddress(start) + BitmapBytes(es), FRAME_SIZE) <= TotalFrames(es)
  }

  // ----- the same in bytes -----

  /** The 4096 bytes of frame f and the byte range overlap; a range of no bytes is taken to lie between
      the byte before its start and the start. */
  predicate Overlaps(f: nat, start: nat, length: nat) {
    start < 4096 * (f + 1) && 4096 * f < start + length
  }

  lemma InRangeInBytes(f: nat, start: nat, length: nat)
    ensures InRange(f, start, length) <==> Overlaps(f, start, length)
  {
  }

  /** An entry reserves a frame exactly when its kind is not 1 and one of its bytes is in the frame.  An
      entry of no bytes reserves the frame it points into, unless it points at the frame's first byte. */
  lemma MapReservesInBytes(es: seq<MemEntry>, f: nat)
    ensures MapReserves(es, f) <==> exists e ::
              e in es && e.kind != 1
              && (if e.lengthLo > 0 then e.baseLo < 4096 * (f + 1) && 4096 * f < e.baseLo + e.lengthLo
                  else 4096 * f < e.baseLo < 4096 * (f + 1))
  {
    forall e | e in es ensures InRange(f, e.baseLo, e.lengthLo) <==> Overlaps(f, e.baseLo, e.lengthLo) {
      InRangeInBytes(f, e.baseLo, e.lengthLo);
    }
  }

  /** The frames in use after PMM_init: those with a byte of an entry of a kind other than 1, of the
      kernel, or of the bitmap, which has one bit for every frame and begins at a multiple of 8. */
  lemma BootReservedInBytes(es: seq<MemEntry>, start: nat, kernelStart: nat, kernelSize: nat, f: nat)
    ensures BootReserved(es, start, kernelStart, kernelSize, f) <==>
              || (exists e :: e in es && e.kind != 1 && Overlaps(f, e.baseLo, e.lengthLo))
              || Overlaps(f, kernelStart, kernelSize)
              || Overlaps(f, (start + 7) / 8 * 8, (TotalFrames(es) + 7) / 8)
  {
    MapReservesInBytes(es, f);
    InRangeInBytes(f, kernelStart, kernelSize);
    InRangeInBytes(f, BitmapAddress(start), BitmapBytes(es));
    assert Pow2(3) == 8;
    AlignUpMeaning(start, 3, 8);
  }

  /** The total is the least number of frames that covers every entry. */
  lemma TotalFramesInBytes(es: seq<MemEntry>)
    ensures forall e :: e in es ==> e.baseLo + e.lengthLo <= 4096 * TotalFrames(es)
    ensures TotalFrames(es) > 0 ==> exists e :: e in es && 4096 * (TotalFrames(es) - 1) < e.baseLo + e.lengthLo
  {
  }

  /** What is taken for granted: no entry ends above 4 GB, and the kernel and the bitmap end inside the
      total and below 4 GB. */
  lemma BootArgumentsInBytes(es: seq<MemEntry>, start: nat, kernelStart: nat, kernelSize: nat)
    ensures BootArguments(es, start, kernelStart, kernelSize) <==>
              var bitmapEnd := (start + 7) / 8 * 8 + (TotalFrames(es) + 7) / 8;
              && (forall e :: e in es ==> e.baseLo + e.lengthLo <= 0x1_0000_0000)
              && kernelStart + kernelSize < 0x1_0000_0000 && kernelStart + kernelSize <= 4096 * TotalFrames(es)
              && bitmapEnd < 0x1_0000_0000 && bitmapEnd <= 4096 * TotalFrames(es)
  {
    assert Pow2(3) == 8;
    AlignUpMeaning(start, 3, 8);
  }

  /** The panic is raised exactly for an entry whose 64-bit address or length needs more than 32 bits. */
  lemma Beyond4GInBytes(es: seq<MemEntry>)
    ensures Beyond4G(es) <==> exists e ::
              e in es && (0x1_0000_0000 * e.baseHi + e.baseLo >= 0x1_0000_0000
                          || 0x1_0000_0000 * e.lengthHi + e.lengthLo >= 0x1_0000_0000)
  {
  }

  lemma AlignToFrame(v: nat)
    ensures AlignUp(v, FRAME_SIZE) / FRAME_SIZE == CeilDiv(v, FRAME_SIZE)
  {
    Pow2Of32();
    AlignUpMeaning(v, 12, 4096);
  }

  lemma AlignToByte(v: nat)
    ensures AlignUp(v, FRAMES_PER_BYTE) % 4 == 0
  {
    assert Pow2(3) == 8;
    AlignUpMeaning(v, 3, 8);
    assert AlignUp(v, 8) == 4 * (2 * CeilDiv(v, 8));
  }

  /** Two memories differ at most in the words of the bitmap. */
  predicate SameOutsideBitmap(m1: seq<Word>, m2: seq<Word>, b: nat, total: nat) {
    |m1| == |m2| && forall i: nat :: i < |m1| && (i < b || b + CeilDiv(total, 32) <= i) ==> m1[i] == m2[i]
  }

  /** ... and, within them, at most in the bits of the frames: the bit behind those, which the search
      may read, is the same. */
  predicate SameBesideBits(m1: seq<Word>, m2: seq<Word>, b: nat, total: nat) {
    SameOutsideBitmap(m1, m2, b, total) && InStore(m1, b, total) && Test(m1, b, total) == Test(m2, b, total)
  }

  /** The bit behind the bitmap survives the memset only if it starts a byte. */
  predicate PadBit(mem: seq<Word>, b: nat, total: nat)
    requires InStore(mem, b, total)
  {
    total % FRAMES_PER_BYTE == 0 && Test(mem, b, total)
  }

  class FrameAllocator {
    const ram: array<Word>
    var framesMap: nat      // word index of g_PMM_frames_map
    var totalFrames: nat
    var usedFrames: nat
    ghost var reserved: set<nat>
    ghost var live: map<nat, nat>

    constructor (ram: array<Word>)
      ensures this.ram == ram && totalFrames == 0 && usedFrames == 0 && live == map[] && reserved == {}
    {
      this.ram := ram;
      framesMap, totalFrames, usedFrames := 0, 0, 0;
      reserved, live := {}, map[];
    }

    ghost function State(): Machine
      reads this, ram
    {
      Machine(ram[..], framesMap, totalFrames, usedFrames, reserved, live)
    }

    /** Body of the marking loops: a frame already marked is not counted again. */
    method MarkFrame(f: nat)
      requires InStore(ram[..], framesMap, totalFrames) && f < totalFrames
      requires usedFrames == |Members(ram[..], framesMap, totalFrames)|
      modifies this`usedFrames, ram
      ensures InStore(ram[..], framesMap, totalFrames)
      ensures Members(ram[..], framesMap, totalFrames) == old(Members(ram[..], framesMap, totalFrames)) + {f}
      ensures usedFrames == |Members(ram[..], framesMap, totalFrames)|
      ensures SameBesideBits(ram[..], old(ram[..]), framesMap, totalFrames)
    {
      ghost var mem := ram[..];
      InsertOne(mem, framesMap, f, totalFrames);
      var t := TestBit(ram, framesMap, f);
      if !t {
        Set(ram, framesMap, f);
        usedFrames := usedFrames + 1;
      } else {
        assert f in Members(mem, framesMap, totalFrames);
        assert Members(mem, framesMap, totalFrames) == Members(mem, framesMap, totalFrames) + {f};
      }
    }

    /** The marking loop that PMM_init runs three times. */
    method MarkFrames(startFrame: nat, endFrame: nat)
      requires InStore(ram[..], framesMap, totalFrames) && endFrame <= totalFrames
      requires usedFrames == |Members(ram[..], framesMap, totalFrames)|
      modifies this`usedFrames, ram
      ensures InStore(ram[..], framesMap, totalFrames)
      ensures forall f :: f in Members(ram[..], framesMap, totalFrames) <==>
                f in old(Members(ram[..], framesMap, totalFrames)) || startFrame <= f < endFrame
      ensures usedFrames == |Members(ram[..], framesMap, totalFrames)|
      ensures SameBesideBits(ram[..], old(ram[..]), framesMap, totalFrames)
    {
      ghost var marked := Members(ram[..], framesMap, totalFrames);
      var f := startFrame;
      while f < endFrame
        invariant startFrame <= f && (f <= endFrame || f == startFrame)
        invariant forall x :: x in Members(ram[..], framesMap, totalFrames) <==> x in marked || startFrame <= x < f
        invariant usedFrames == |Members(ram[..], framesMap, totalFrames)|
        invariant SameBesideBits(ram[..], old(ram[..]), framesMap, totalFrames)
      {
        MarkFrame(f);
        f := f + 1;
      }
    }

    /** First loop of PMM_init: the highest end address, or the panic above 4 GB. */
    method FindHighEnd(entries: seq<MemEntry>) returns (panicked: bool, highEnd: nat)
      ensures panicked <==> Beyond4G(entries)
      ensures !panicked ==> highEnd == HighEnd(entries)
    {
      highEnd := 0;
      var i := 0;
      while i < |entries|
        invariant 0 <= i <= |entries| && highEnd == HighEnd(entries[..i]) && !Beyond4G(entries[..i])
      {
        HighEndStep(entries, i);
        if entries[i].lengthHi != 0 || entries[i].baseHi != 0 {
          assert entries[i] in entries;
          return true, highEnd;
        }
        var end := entries[i].baseLo + entries[i].lengthLo;
        if end > highEnd {
          highEnd := end;
        }
        i := i + 1;
      }
      assert entries[..i] == entries;
      panicked := false;
    }

    /** Body of the second loop of PMM_init.  An entry that ends at or below the total cannot
        raise the "end frame > total frames" panic. */
    method MarkEntry(e: MemEntry)
      requires InStore(ram[..], framesMap, totalFrames)
      requires CeilDiv(e.baseLo + e.lengthLo, FRAME_SIZE) <= totalFrames
      requires usedFrames == |Members(ram[..], framesMap, totalFrames)|
      modifies this`usedFrames, ram
      ensures InStore(ram[..], framesMap, totalFrames)
      ensures forall f :: f in Members(ram[..], framesMap, totalFrames) <==>
                f in old(Members(ram[..], framesMap, totalFrames))
                || (e.kind != MEM_MAP_TYPE_AVAILABLE && InRange(f, e.baseLo, e.lengthLo))
      ensures usedFrames == |Members(ram[..], framesMap, totalFrames)|
      ensures SameBesideBits(ram[..], old(ram[..]), framesMap, totalFrames)
    {
      if e.kind == MEM_MAP_TYPE_AVAILABLE { return; }
      AlignToFrame(e.baseLo + e.lengthLo);
      var startFrame := e.baseLo / FRAME_SIZE;
      var endFrame := AlignUp(e.baseLo + e.lengthLo, FRAME_SIZE) / FRAME_SIZE;
      if endFrame > totalFrames {
        assert false;
      }
      MarkFrames(startFrame, endFrame);
    }

    /** Second loop of PMM_init: the frames of the non-available entries. */
    method MarkMap(entries: seq<MemEntry>)
      requires InStore(ram[..], framesMap, totalFrames) && totalFrames == TotalFrames(entries)
      requires Members(ram[..], framesMap, totalFrames) == {} && usedFrames == 0
      modifies this`usedFrames, ram
      ensures InStore(ram[..], framesMap, totalFrames)
      ensures forall f :: f in Members(ram[..], framesMap, totalFrames) <==> MapReserves(entries, f)
      ensures usedFrames == |Members(ram[..], framesMap, totalFrames)|
      ensures SameBesideBits(ram[..], old(ram[..]), framesMap, totalFrames)
    {
      var i := 0;
      while i < |entries|
        invariant 0 <= i <= |entries|
        invariant forall f :: f in Members(ram[..], framesMap, totalFrames) <==> MapReserves(entries[..i], f)
        invariant usedFrames == |Members(ram[..], framesMap, totalFrames)|
        invariant SameBesideBits(ram[..], old(ram[..]), framesMap, totalFrames)
      {
        MapReservesStep(entries, i);
        assert entries[i] in entries;
        MarkEntry(entries[i]);
        i := i + 1;
      }
      assert entries[..i] == entries;
    }

    /** Lines 47-52 of PMM.c: place the bitmap and zero it. */
    method PlaceBitmap(highEnd: nat, physicalMemStart: Word) returns (bitmapPaddr: nat, memMapSize: nat)
      requires BitmapAddress(physicalMemStart) < WORD_LIMIT
      requires BitmapAddress(physicalMemStart) / 4 + CeilDiv(highEnd, FRAME_SIZE) / 32 < ram.Length
      modifies this`usedFrames, this`totalFrames, this`framesMap, ram
      ensures bitmapPaddr == BitmapAddress(physicalMemStart) == 4 * framesMap
      ensures totalFrames == CeilDiv(highEnd, FRAME_SIZE) && memMapSize == CeilDiv(totalFrames, FRAMES_PER_BYTE)
      ensures usedFrames == 0 && InStore(ram[..], framesMap, totalFrames)
      ensures Members(ram[..], framesMap, totalFrames) == {}
      ensures Test(ram[..], framesMap, totalFrames) == PadBit(old(ram[..]), framesMap, totalFrames)
      ensures SameOutsideBitmap(ram[..], old(ram[..]), framesMap, totalFrames)
    {
      AlignToFrame(highEnd);
      AlignToByte(physicalMemStart);
      usedFrames := 0;
      totalFrames := AlignUp(highEnd, FRAME_SIZE) / FRAME_SIZE;
      memMapSize := (totalFrames + FRAMES_PER_BYTE - 1) / FRAMES_PER_BYTE;
      bitmapPaddr := Wrap32(AlignUp(physicalMemStart, FRAMES_PER_BYTE));
      framesMap := bitmapPaddr / 4;
      ZeroedBitmap(ram[..], framesMap, totalFrames, memMapSize);
      MemsetZero(ram, framesMap, memMapSize);
    }

    /** The last two blocks of PMM_init: mark a byte range, rounded outward to frames. */
    method MarkRange(start: nat, length: nat)
      requires InStore(ram[..], framesMap, totalFrames)
      requires start + length < WORD_LIMIT && CeilDiv(start + length, FRAME_SIZE) <= totalFrames
      requires usedFrames == |Members(ram[..], framesMap, totalFrames)|
      modifies this`usedFrames, ram
      ensures InStore(ram[..], framesMap, totalFrames)
      ensures forall f :: f in Members(ram[..], framesMap, totalFrames) <==>
                f in old(Members(ram[..], framesMap, totalFrames)) || InRange(f, start, length)
      ensures usedFrames == |Members(ram[..], framesMap, totalFrames)|
      ensures SameBesideBits(ram[..], old(ram[..]), framesMap, totalFrames)
    {
      AlignToFrame(start + length);
      var end := Wrap32(start + length);
      var startFrame, endFrame := start / FRAME_SIZE, AlignUp(end, FRAME_SIZE) / FRAME_SIZE;
      assert endFrame == CeilDiv(start + length, FRAME_SIZE);
      MarkFrames(startFrame, endFrame);
    }

    /** PMM_init.  The result says whether the kernel panicked; the second panic, an entry ending
        above the total, is never reached. */
    method Init(entries: seq<MemEntry>, physicalMemStart: Word, kernelStart: Word, kernelSize: Word)
      returns (panicked: bool)
      requires !Beyond4G(entries) ==>
                 BootArguments(entries, physicalMemStart, kernelStart, kernelSize)
                 && FRAME_WORDS * TotalFrames(entries) <= ram.Length
                 && BitmapAddress(physicalMemStart) / 4 + TotalFrames(entries) / 32 < ram.Length
      modifies this, ram
      ensures panicked <==> Beyond4G(entries)
      ensures !panicked ==>
                && State().Inv() && live == map[]
                && totalFrames == TotalFrames(entries) && framesMap == BitmapAddress(physicalMemStart) / 4
                && (forall f :: f in reserved <==>
                      BootReserved(entries, physicalMemStart, kernelStart, kernelSize, f))
                && usedFrames == |reserved|
                && (forall i: nat :: i < ram.Length && (i < framesMap || framesMap + CeilDiv(totalFrames, 32) <= i) ==>
                      ram[i] == old(ram[i]))
                && Test(ram[..], framesMap, totalFrames) == PadBit(old(ram[..]), framesMap, totalFrames)
    {
      var highEnd;
      panicked, highEnd := FindHighEnd(entries);
      if panicked { return; }
      var bitmapPaddr, memMapSize := PlaceBitmap(highEnd, physicalMemStart);
      MarkMap(entries);
      MarkRange(kernelStart, kernelSize);
      MarkRange(bitmapPaddr, memMapSize);
      reserved, live := Members(ram[..], framesMap, totalFrames), map[];
      BitmapIsReserved(State(), bitmapPaddr, memMapSize);
      FreshBooks(State());
    }

    /** PMM_malloc */
    method Malloc(size: Word) returns (ptr: Word)
      requires State().WellFormed()
      modifies this`usedFrames, this`live, ram
      ensures (State(), ptr) == Frames.Malloc(old(State()), size)
    {
      var numFrames := SizeToFrames(size);
      SizeToFramesIsCeiling(size);
      if totalFrames - usedFrames < numFrames {
        return 0;
      }
      var found, pos := FindAsWritten(ram, framesMap, totalFrames, numFrames);
      if !found {
        return 0;
      }
      FindMeaning(ram[..], framesMap, totalFrames, numFrames, pos);
      SetRun(ram, framesMap, pos, numFrames);
      usedFrames := usedFrames + numFrames;
      live := live[pos := numFrames];
      ptr := Wrap32(pos * FRAME_SIZE);
    }

    /** PMM_free */
    method Free(ptr: Word, size: Word) returns (panicked: bool)
      modifies this`usedFrames, this`live, ram
      ensures Frames.Free(old(State()), ptr, size) == if panicked then None else Some(State())
      ensures panicked ==> State() == old(State())
    {
      var numFrames := SizeToFrames(size);
      if usedFrames < numFrames {
        return true;
      }
      var pos := ptr / FRAME_SIZE;
      ClearRun(ram, framesMap, pos, numFrames);
      usedFrames := usedFrames - numFrames;
      live := if Owned(old(State()).live, pos, numFrames) then live - {pos} else live;
      panicked := false;
    }

    method FramesFree() returns (r: int)
      requires State().Inv()
      ensures r + |State().View().marked| == totalFrames
    {
      r := totalFrames - usedFrames;
    }
  }

  lemma FreshBooks(m: Machine)
    requires m.total <= MAX_FRAMES && InStore(m.mem, m.base, m.total) && FRAME_WORDS * m.total <= |m.mem|
    requires m.reserved == Members(m.mem, m.base, m.total) && m.used == |m.reserved| && m.live == map[]
    requires m.SelfHosted()
    ensures m.Inv()
  {
    MembersFit(m.mem, m.base, m.total);
    assert forall f: nat :: !Covered(m.live, f);
  }

  lemma MembersFit(mem: seq<Word>, b: nat, total: nat)
    requires InStore(mem, b, total)
    ensures |Members(mem, b, total)| <= total
  {
    BlockSize(0, total);
    assert Members(mem, b, total) <= Block(0, total);
    SubsetSize(Members(mem, b, total), Block(0, total));
  }

  /** memset leaves no bit of the bitmap set, and stops at the bitmap's last word. */
  lemma ZeroedBitmap(mem: seq<Word>, b: nat, total: nat, bytes: nat)
    requires InStore(mem, b, total) && bytes == CeilDiv(total, 8)
    ensures b + CeilDiv(bytes, 4) <= |mem|
    ensures Members(ZeroBytes(mem, b, bytes), b, total) == {}
    ensures SameOutsideBitmap(ZeroBytes(mem, b, bytes), mem, b, total)
    ensures Test(ZeroBytes(mem, b, bytes), b, total) == PadBit(mem, b, total)
  {
    ZeroBytesBit(mem, b, bytes, total);
    assert 8 * bytes <= total <==> total % 8 == 0;
    forall x: nat | x < total ensures InStore(mem, b, x) && !Test(ZeroBytes(mem, b, bytes), b, x) {
      ZeroBytesBit(mem, b, bytes, x);
    }
    forall i: nat | i < |mem| && (i < b || b + CeilDiv(total, 32) <= i)
      ensures ZeroBytes(mem, b, bytes)[i] == mem[i]
    {
      ZeroBytesFrame(mem, b, bytes, i);
    }
  }

  lemma MapReservesStep(es: seq<MemEntry>, i: nat)
    requires i < |es|
    ensures forall f :: MapReserves(es[..i + 1], f) <==>
              MapReserves(es[..i], f)
              || (es[i].kind != MEM_MAP_TYPE_AVAILABLE && InRange(f, es[i].baseLo, es[i].lengthLo))
  {
    assert es[..i + 1] == es[..i] + [es[i]];
  }

  /** Every word access for an in-range bit falls into a frame of the page-rounded bitmap range. */
  lemma BitmapIsReserved(m: Machine, address: nat, bytes: nat)
    requires m.base == address / 4 && address % 4 == 0 && bytes == CeilDiv(m.total, FRAMES_PER_BYTE)
    requires forall f: nat :: InRange(f, address, bytes) ==> f in m.reserved
    ensures m.SelfHosted()
  {
    forall f: nat | m.HoldsBitmap(f) ensures f in m.reserved {
      assert InRange(f, address, bytes);
    }
  }

  lemma InsertOne(mem: seq<Word>, b: nat, f: nat, total: nat)
    requires InStore(mem, b, total) && f < total
    ensures InStore(mem, b, f) && Members(SetAt(mem, b, f), b, total) == Members(mem, b, total) + {f}
    ensures Test(SetAt(mem, b, f), b, total) == Test(mem, b, total)
  {
    SetAtInserts(mem, b, f, total);
    forall y: nat | y < total
      ensures InStore(mem, b, y) && (Test(SetAt(mem, b, f), b, y) <==> y == f || Test(mem, b, y))
    {
      SetAtInserts(mem, b, f, y);
    }
  }

  // ----- what PMM_init depends on -----

  lemma HighEndOfSameEntries(es1: seq<MemEntry>, es2: seq<MemEntry>)
    requires forall e :: e in es1 <==> e in es2
    ensures HighEnd(es1) == HighEnd(es2)
  {
  }

  /** The order of the memory map (and repeated entries) makes no difference to the frames that
      PMM_init reserves, to the total or to the panic. */
  lemma InitIgnoresEntryOrder(es1: seq<MemEntry>, es2: seq<MemEntry>, start: nat, kernelStart: nat, kernelSize: nat)
    requires forall e :: e in es1 <==> e in es2
    ensures TotalFrames(es1) == TotalFrames(es2) && (Beyond4G(es1) <==> Beyond4G(es2))
    ensures forall f :: BootReserved(es1, start, kernelStart, kernelSize, f)
                        <==> BootReserved(es2, start, kernelStart, kernelSize, f)
  {
    HighEndOfSameEntries(es1, es2);
    forall f ensures MapReserves(es1, f) <==> MapReserves(es2, f) {
    }
  }

  /** With the arguments of the boot code, on a memory map that does not itself reserve the image, the
      frames of the running kernel image are all reserved exactly when the image is at most 4088
      bytes: then it shares its one frame with the bitmap placed behind it. */
  lemma RunningImageReservedExactlyWhen(es: seq<MemEntry>, size: nat)
    requires KERNEL_HIMEM + size + 8 < WORD_LIMIT
    requires forall f :: InRange(f, KERNEL_HIMEM, size) ==> !MapReserves(es, f)
    ensures (forall f :: InRange(f, KERNEL_HIMEM, size)
               ==> BootReserved(es, KERNEL_HIMEM + size, KERNEL_SEG, size, f))
            <==> size <= 4088
  {
    var bitmap := BitmapAddress(0x10_0000 + size);
    assert bitmap == CeilDiv(0x10_0000 + size, 8) * 8 by {
      assert Pow2(3) == 8;
      AlignUpMeaning(0x10_0000 + size, 3, 8);
    }
    if size <= 4088 {
      forall f | InRange(f, 0x10_0000, size) ensures InRange(f, bitmap, BitmapBytes(es)) {
        assert bitmap / 4096 == 256 && f == 256;
        assert size > 0;
        assert bitmap > 0x10_0000;
      }
    } else {
      var f := if size <= 255 * 4096 then 256 else 1 + CeilDiv(size, 4096);
      assert InRange(f, 0x10_0000, size);
      assert !InRange(f, 0x1000, size);
      assert !InRange(f, bitmap, BitmapBytes(es));
    }
  }
}
