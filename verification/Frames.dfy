/** kernel/src/arch/x86/mmu/PMM.c as a state machine over physical memory.

    The machine holds the memory, the allocator's variables, and two records the kernel does not
    keep: the frames reserved at boot and the ledger of blocks handed out. */
module Frames {
  import opened Words
  import opened Bitset
  import opened Ledger
  import opened Sets

  const FRAME_SIZE: nat := 4096
  const FRAME_WORDS: nat := 1024

  datatype Machine = Machine(
    mem: seq<Word>,           // physical memory, one entry per 32-bit word
    base: nat,                // word index of g_PMM_frames_map
    total: nat,               // g_PMM_total_frames
    used: nat,                // g_PMM_used_frames
    reserved: set<nat>,       // frames marked by PMM_init
    live: map<nat, nat>)      // blocks handed out: first frame -> number of frames
  {
    /** The frames exist and so does every word the bitmap code may read. */
    predicate WellFormed() {
      total <= MAX_FRAMES && used <= total && InStore(mem, base, total) && FRAME_WORDS * total <= |mem|
    }

    /** The allocator's books as its bitmap shows them. */
    function View(): Books
      requires WellFormed()
    {
      Books(total, Members(mem, base, total), used, reserved, live)
    }

    /** The frames that hold the words of the bitmap. */
    predicate HoldsBitmap(f: nat) {
      total > 0 && base / FRAME_WORDS <= f <= (base + (total - 1) / BITSET_SIZE) / FRAME_WORDS
    }

    /** They were all reserved at boot. */
    ghost predicate SelfHosted() {
      forall f: nat :: HoldsBitmap(f) ==> f in reserved
    }

    ghost predicate Inv() {
      WellFormed() && SelfHosted() && View().Ok()
    }
  }

  /** _size2frame */
  function SizeToFrames(size: nat): nat {
    size / FRAME_SIZE + (if size % FRAME_SIZE != 0 then 1 else 0)
  }

  /** _size2frame is the exact ceiling, so a 32-bit size never asks for more than MAX_FRAMES. */
  lemma SizeToFramesIsCeiling(size: nat)
    ensures FRAME_SIZE * SizeToFrames(size) >= size
    ensures size > 0 ==> FRAME_SIZE * (SizeToFrames(size) - 1) < size
    ensures size < WORD_LIMIT ==> SizeToFrames(size) <= MAX_FRAMES
  {
  }

  /** The answer of bitset_find for this machine and n frames, if PMM_malloc gets as far as asking. */
  function Pick(m: Machine, n: nat): (r: Option<nat>)
    requires m.WellFormed()
    ensures r.Some? ==> n > 0 && r.value + n <= m.total && m.used + n <= m.total
                        && InStore(m.mem, m.base, r.value + n)
  {
    if m.total - m.used < n then None
    else
      var r := Find(m.mem, m.base, m.total, n);
      if r.Some? then FindMeaning(m.mem, m.base, m.total, n, r.value); r else r
  }

  /** Nothing moves the bitmap or changes the boot-time facts. */
  predicate SameLayout(m1: Machine, m2: Machine) {
    m1.base == m2.base && m1.total == m2.total && m1.reserved == m2.reserved && |m1.mem| == |m2.mem|
  }

  /** The frames [p, p + n) go from free to used. */
  function TakeFrames(m: Machine, p: nat, n: nat): (r: Machine)
    requires InStore(m.mem, m.base, p + n)
    ensures SameLayout(m, r)
  {
    m.(mem := SetRange(m.mem, m.base, p, n), used := m.used + n, live := m.live[p := n])
  }

  /** The frames [p, p + n) go from used to free. */
  function ReturnFrames(m: Machine, p: nat, n: nat): (r: Machine)
    requires n <= m.used
    ensures SameLayout(m, r)
  {
    m.(mem := ClearRange(m.mem, m.base, p, n), used := m.used - n,
       live := if Owned(m.live, p, n) then m.live - {p} else m.live)
  }

  /** PMM_malloc: the new machine and the address returned, 0 standing for NULL. */
  function Malloc(m: Machine, size: nat): (r: (Machine, nat))
    requires m.WellFormed()
    ensures SameLayout(m, r.0)
  {
    match Pick(m, SizeToFrames(size))
    case None => (m, 0)
    case Some(p) => (TakeFrames(m, p, SizeToFrames(size)), p * FRAME_SIZE)
  }

  /** PMM_free: None is the panic raised when more frames are freed than are in use. */
  function Free(m: Machine, ptr: nat, size: nat): (r: Option<Machine>)
    ensures r.Some? ==> SameLayout(m, r.value)
  {
    if m.used < SizeToFrames(size) then None
    else Some(ReturnFrames(m, ptr / FRAME_SIZE, SizeToFrames(size)))
  }

  /** A client stores a word. */
  function Write(m: Machine, i: nat, v: Word): Machine
    requires i < |m.mem|
  {
    m.(mem := m.mem[i := v])
  }

  // ----- PMM_malloc -----

  lemma TakeFramesTakes(m: Machine, p: nat, n: nat)
    requires m.WellFormed() && p + n <= m.total && m.used + n <= m.total
    ensures InStore(m.mem, m.base, p + n)
    ensures TakeFrames(m, p, n).WellFormed() && TakeFrames(m, p, n).View() == m.View().Take(p, n)
  {
    MembersAfterSet(m.mem, m.base, p, n, m.total);
  }

  lemma ClearMeansUnmarked(m: Machine, p: nat, n: nat)
    requires m.WellFormed() && p + n <= m.total && InStore(m.mem, m.base, p + n)
    ensures BlockClear(m.mem, m.base, p, n) <==> Block(p, n) !! m.View().marked
  {
    if BlockClear(m.mem, m.base, p, n) {
      forall f | f in Block(p, n) ensures f !in m.View().marked {
        assert Within(f, p, n);
      }
    } else {
      var x: nat :| x < p + n && Within(x, p, n) && Test(m.mem, m.base, x);
      assert x in Block(p, n) && x in m.View().marked;
    }
  }

  /** The block the search picked, if any, was clear. */
  predicate PickIsClear(m: Machine, n: nat)
    requires m.WellFormed()
  {
    match Pick(m, n)
    case None => true
    case Some(p) => BlockClear(m.mem, m.base, p, n)
  }

  /** PMM_malloc keeps the invariant exactly when it fails or the block it picked was clear; the
      search as written does not see to that for every request. */
  lemma MallocKeepsInvExactlyWhen(m: Machine, size: nat)
    requires m.Inv()
    ensures Malloc(m, size).0.Inv() <==> PickIsClear(m, SizeToFrames(size))
  {
    var n := SizeToFrames(size);
    if Pick(m, n).Some? {
      var p := Pick(m, n).value;
      TakeFramesTakes(m, p, n);
      ClearMeansUnmarked(m, p, n);
      if BlockClear(m.mem, m.base, p, n) {
        TakeKeepsBooks(m.View(), p, n);
      } else {
        var x :| x in Block(p, n) && x in m.View().marked;
        OverlapBreaksBooks(m.View(), p, n, x);
      }
    }
  }

  /** The search does see to it for a safe request. */
  lemma SafeRequestIsClear(m: Machine, n: nat)
    requires m.WellFormed() && SafeRequest(m.total, n)
    ensures PickIsClear(m, n)
  {
    if Pick(m, n).Some? { SafeRequestSound(m.mem, m.base, m.total, n); }
  }

  /** A clear block is a run of frames neither reserved nor live ... */
  lemma ClearIsFresh(m: Machine, p: nat, n: nat)
    requires m.Inv() && p + n <= m.total && InStore(m.mem, m.base, p + n) && BlockClear(m.mem, m.base, p, n)
    ensures Block(p, n) !! m.View().marked && m.used + n <= m.total
    ensures forall f :: p <= f < p + n ==> f !in m.reserved && !Covered(m.live, f)
  {
    ClearMeansUnmarked(m, p, n);
    BlockSize(p, n);
    BlockSize(0, m.total);
    SubsetSize(m.View().marked + Block(p, n), Block(0, m.total));
    forall f | p <= f < p + n ensures f !in m.reserved && !Covered(m.live, f) {
      assert f in Block(p, n);
    }
  }

  /** ... and taking it keeps the invariant. */
  lemma TakeClearBlock(m: Machine, p: nat, n: nat)
    requires m.Inv() && n > 0 && p + n <= m.total && InStore(m.mem, m.base, p + n) && BlockClear(m.mem, m.base, p, n)
    ensures p !in m.live && TakeFrames(m, p, n).Inv() && TakeFrames(m, p, n).View() == m.View().Take(p, n)
  {
    ClearIsFresh(m, p, n);
    TakeFramesTakes(m, p, n);
    TakeKeepsBooks(m.View(), p, n);
  }

  // ----- PMM_free -----

  lemma ReturnFramesReleases(m: Machine, p: nat, n: nat)
    requires m.WellFormed() && n <= m.used
    ensures ReturnFrames(m, p, n).WellFormed() && ReturnFrames(m, p, n).View() == m.View().Release(p, n)
  {
    MembersAfterClear(m.mem, m.base, p, n, m.total);
  }

  /** Freeing a live block takes exactly its frames out of the used set. */
  lemma FreeBlock(m: Machine, p: nat, n: nat)
    requires m.Inv() && Owned(m.live, p, n)
    ensures n <= m.used
    ensures ReturnFrames(m, p, n).Inv() && ReturnFrames(m, p, n).View() == m.View().Release(p, n)
  {
    OwnedIsMarked(m.View(), p, n);
    ReturnFramesReleases(m, p, n);
    ReleaseKeepsBooks(m.View(), p, n);
  }

  /** PMM_free trusts its caller.  When it does not panic, it keeps the invariant exactly when it
      frees nothing or one whole live block, whatever pointer and size it is given. */
  lemma FreeKeepsInvExactlyWhen(m: Machine, ptr: nat, size: nat)
    requires m.Inv()
    ensures var n, p := SizeToFrames(size), ptr / FRAME_SIZE;
            match Free(m, ptr, size)
            case None => m.used < n && !Owned(m.live, p, n)
            case Some(m') => m'.Inv() <==> n == 0 || Owned(m.live, p, n)
  {
    var n, p := SizeToFrames(size), ptr / FRAME_SIZE;
    if Owned(m.live, p, n) {
      FreeBlock(m, p, n);
    } else if n <= m.used {
      ReturnFramesReleases(m, p, n);
      if n > 0 {
        ForeignReleaseBreaksBooks(m.View(), p, n);
      } else {
        assert m.View().Release(p, n).marked == m.View().marked;
      }
    }
  }

  // ----- client writes -----

  lemma LiveFrameFacts(m: Machine, f: nat)
    requires m.Inv() && Covered(m.live, f)
    ensures f < m.total && f !in m.reserved && f in m.View().marked
  {
    assert f in m.View().marked;
  }

  lemma BitmapWordFrame(m: Machine, x: nat)
    requires x < m.total
    ensures m.HoldsBitmap((m.base + x / BITSET_SIZE) / FRAME_WORDS)
  {
  }

  /** A write inside a live block leaves every bitmap word alone, because the bitmap's own frames
      are reserved: the allocator's books do not move. */
  lemma ClientWriteKeepsBooks(m: Machine, i: nat, v: Word)
    requires m.Inv() && Covered(m.live, i / FRAME_WORDS)
    ensures i < |m.mem| && Write(m, i, v).Inv() && Write(m, i, v).View() == m.View()
    ensures forall x: nat :: x < m.total ==> i != m.base + x / BITSET_SIZE
  {
    LiveFrameFacts(m, i / FRAME_WORDS);
    var m' := Write(m, i, v);
    assert !m.HoldsBitmap(i / FRAME_WORDS);
    forall x: nat | x < m.total ensures i != m.base + x / BITSET_SIZE {
      BitmapWordFrame(m, x);
    }
    forall x: nat | x < m.total
      ensures InStore(m.mem, m.base, x) && Test(m'.mem, m'.base, x) == Test(m.mem, m.base, x)
    {
    }
    assert m'.View().marked == m.View().marked;
  }
}
