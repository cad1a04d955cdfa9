/** Which requests PMM_malloc answers soundly in every state of an allocator in good order, and when
    the address it returns on success is NULL. */
module Requests {
  import opened Words
  import opened Bitset
  import opened Ledger
  import opened Sets
  import opened Frames

  const BITS_PER_FRAME: nat := 32768

  /** The bitmap of so many frames takes up at least this many of them. */
  function BitmapFrames(total: nat): nat {
    (total + BITS_PER_FRAME - 1) / BITS_PER_FRAME
  }

  /** The requests for which some allocator in good order hands out a block with a used frame in it. */
  predicate UnsafeRequest(total: nat, n: nat) {
    && BITSET_SIZE <= total <= MAX_FRAMES && n >= 2
    && var k := BitmapFrames(total);
       n + k + 2 <= total || (k == 1 && n < total) || (k == 32 && n + 33 == total)
  }

  // ----- the failing side -----

  /** A machine with nothing handed out and just the given frames reserved, the bitmap's among them. */
  lemma MachineWith(total: nat, base: nat, s: set<nat>) returns (m: Machine)
    requires total <= MAX_FRAMES && base + total / BITSET_SIZE <= FRAME_WORDS * total
    requires forall x :: x in s ==> x < total
    requires forall f: nat :: total > 0 && base / FRAME_WORDS <= f <= (base + (total - 1) / BITSET_SIZE) / FRAME_WORDS ==> f in s
    ensures m.Inv() && m.total == total && m.base == base && m.reserved == s && m.used == |s| && m.live == map[]
    ensures forall y: nat :: y <= total ==> InStore(m.mem, base, y) && (Test(m.mem, base, y) <==> y in s)
  {
    var mem := MemoryWith(FRAME_WORDS * total + 1, base, total, s);
    BlockSize(0, total);
    SubsetSize(s, Block(0, total));
    m := Machine(mem, base, total, |s|, s, map[]);
    assert m.View().marked == s;
    assert forall f: nat :: !Covered(m.live, f);
  }

  /** If the first clear frame is p = 0, 1 or 32 and p + 1 is used, all n + 1 frames around that clear,
      then the block at p is handed out with the frame p + 1 in it. */
  lemma FooledMachine(m: Machine, n: nat, p: nat)
    requires m.Inv() && n >= 2 && m.used + n <= m.total && p + 1 + n <= m.total
    requires p < Candidates(m.total) && p in {0, 1, 32}
    requires forall y: nat :: y < p ==> InStore(m.mem, m.base, y) && Test(m.mem, m.base, y)
    requires forall y: nat :: p <= y <= p + 1 + n ==> InStore(m.mem, m.base, y) && (Test(m.mem, m.base, y) <==> y == p + 1)
    ensures Pick(m, n) == Some(p) && !PickIsClear(m, n)
  {
    assert Window(p) == p + 1 by { assert Pow2(0) == 1 && Pow2(1) == 2; }
    OneBitFoolsSearch(m.mem, m.base, m.total, n, p);
  }

  /** A machine with its bitmap in the last frames of the memory and some frames below it reserved. */
  lemma TopBitmapMachine(total: nat, below: set<nat>) returns (m: Machine)
    requires BITSET_SIZE <= total <= MAX_FRAMES
    requires forall x :: x in below ==> x < total - BitmapFrames(total)
    ensures m.Inv() && m.total == total && m.reserved >= below && m.used == |below| + BitmapFrames(total)
    ensures forall y: nat :: y < total - BitmapFrames(total) ==>
              InStore(m.mem, m.base, y) && (Test(m.mem, m.base, y) <==> y in below)
  {
    var k := BitmapFrames(total);
    TopBitmap(total);
    var s := below + Block(total - k, k);
    assert |s| == |below| + k by { BlockSize(total - k, k); }
    m := MachineWith(total, FRAME_WORDS * (total - k), s);
  }

  lemma TopBitmap(total: nat)
    requires BITSET_SIZE <= total <= MAX_FRAMES
    ensures var k := BitmapFrames(total); var base := FRAME_WORDS * (total - k);
            && 1 <= k <= 32 && k <= total && base + total / BITSET_SIZE <= FRAME_WORDS * total
            && base / FRAME_WORDS == total - k && (base + (total - 1) / BITSET_SIZE) / FRAME_WORDS == total - 1
  {
  }

  /** A machine in good order on which an unsafe request is given a block with a used frame in it. */
  lemma UnsafeMallocWitness(total: nat, size: nat) returns (m: Machine)
    requires UnsafeRequest(total, SizeToFrames(size))
    ensures m.Inv() && m.total == total && Pick(m, SizeToFrames(size)).Some?
    ensures !PickIsClear(m, SizeToFrames(size)) && !Malloc(m, size).0.Inv()
  {
    var n, k := SizeToFrames(size), BitmapFrames(total);
    if n + k + 2 <= total {
      m := FooledAtZero(total, n);
    } else if k == 1 {
      m := MachineWith(total, FRAME_WORDS, {1});
      FooledMachine(m, n, 0);
    } else {
      m := FooledAt32(total, n);
    }
    MallocKeepsInvExactlyWhen(m, size);
  }

  lemma FooledAtZero(total: nat, n: nat) returns (m: Machine)
    requires BITSET_SIZE <= total <= MAX_FRAMES && n >= 2 && n + BitmapFrames(total) + 2 <= total
    ensures m.Inv() && m.total == total && Pick(m, n).Some? && !PickIsClear(m, n)
  {
    m := TopBitmapMachine(total, {1});
    FooledMachine(m, n, 0);
  }

  lemma FooledAt32(total: nat, n: nat) returns (m: Machine)
    requires total <= MAX_FRAMES && BitmapFrames(total) == 32 && n + 33 == total
    ensures m.Inv() && m.total == total && Pick(m, n).Some? && !PickIsClear(m, n)
  {
    BlockSize(0, 32);
    m := MachineWith(total, 0, Block(0, 32) + {33});
    FooledMachine(m, n, 32);
  }

  /** The same seen by a client: address 4096 is returned for a block that holds the reserved frame 2.
      Frame 0 is reserved, so the address is not NULL. */
  lemma ClientGetsReservedFrame(total: nat, size: nat) returns (m: Machine)
    requires BITSET_SIZE <= total <= MAX_FRAMES && SizeToFrames(size) >= 2
    requires SizeToFrames(size) + BitmapFrames(total) + 3 <= total
    ensures m.Inv() && m.total == total && 0 in m.reserved && 2 in m.reserved
    ensures Malloc(m, size) == (TakeFrames(m, 1, SizeToFrames(size)), 4096) && 2 in Block(1, SizeToFrames(size))
  {
    m := TopBitmapMachine(total, {0, 2});
    FooledMachine(m, SizeToFrames(size), 1);
  }

  /** On a memory of up to 128 MB the reserved frame can be the bitmap's own. */
  lemma ClientGetsBitmapFrame(total: nat, size: nat) returns (m: Machine)
    requires BITSET_SIZE <= total <= BITS_PER_FRAME && SizeToFrames(size) >= 2 && SizeToFrames(size) + 2 <= total
    ensures m.Inv() && m.total == total && 0 in m.reserved && m.HoldsBitmap(2)
    ensures Malloc(m, size) == (TakeFrames(m, 1, SizeToFrames(size)), 4096) && 2 in Block(1, SizeToFrames(size))
  {
    m := MachineWith(total, 2048, {0, 2});
    FooledMachine(m, SizeToFrames(size), 1);
  }

  // ----- the sound side -----

  /** The bitmap's run of frames, all reserved. */
  lemma BitmapRun(m: Machine) returns (b: nat)
    requires m.Inv() && m.total > 0
    ensures b + BitmapFrames(m.total) <= m.total && Block(b, BitmapFrames(m.total)) <= m.View().marked
  {
    b := m.base / FRAME_WORDS;
    var k := BitmapFrames(m.total);
    assert k - 1 == (m.total - 1) / BITSET_SIZE / FRAME_WORDS;
    forall f | f in Block(b, k) ensures f in m.View().marked {
      assert m.HoldsBitmap(f);
    }
    assert b + k - 1 in Block(b, k);
  }

  /** At most one of the n + 1 frames from w on is used. */
  ghost predicate OneUsed(m: Machine, w: nat, n: nat)
    requires m.WellFormed()
  {
    forall y, z :: y in m.View().marked && z in m.View().marked && w <= y < z ==> w + n < z
  }

  lemma AcceptedHasOneUsed(m: Machine, n: nat, p: nat)
    requires m.WellFormed() && Accepts(m.mem, m.base, m.total, n, p) && n >= 1
    ensures OneUsed(m, Window(p), n)
  {
    var w := Window(p);
    forall y, z | y in m.View().marked && z in m.View().marked && w <= y < z ensures w + n < z {
      if z <= w + n { CountWithTwoSet(m.mem, m.base, w, n + 1, y, z); }
    }
  }

  lemma PickedHasOneUsed(m: Machine, n: nat, p: nat)
    requires m.WellFormed() && Pick(m, n) == Some(p)
    ensures p !in m.View().marked && BITSET_SIZE <= m.total && p + n < Window(p) + n <= m.total && OneUsed(m, Window(p), n)
  {
    FindMeaning(m.mem, m.base, m.total, n, p);
    AcceptedHasOneUsed(m, n, p);
    WindowAbove(p);
  }

  /** What a block that was not clear says about the search. */
  lemma BadPick(m: Machine, n: nat) returns (p: nat, x: nat)
    requires m.Inv() && !PickIsClear(m, n)
    ensures p !in m.View().marked && x in m.View().marked && p < x < p + n && Window(p) + n <= m.total
    ensures 2 <= n < m.total && m.total >= BITSET_SIZE && m.used + n <= m.total
    ensures OneUsed(m, Window(p), n)
  {
    p := Pick(m, n).value;
    PickedHasOneUsed(m, n, p);
    ClearMeansUnmarked(m, p, n);
    x :| x in Block(p, n) && x in m.View().marked;
  }

  /** Only the candidates 0 and 1 and their like in later words are counted from the next frame on. */
  lemma WindowGap(p: nat)
    ensures p < Window(p)
    ensures p < BITSET_SIZE ==> (Window(p) == p + 1 <==> p < 2)
  {
    assert Pow2(0) == 1 && Pow2(1) == 2;
    if 2 <= p < 32 { Pow2Gap(p); }
  }

  lemma {:induction false} Pow2Gap(j: nat)
    requires j >= 2
    ensures Pow2(j) > j + 1
  {
    if j > 2 { Pow2Gap(j - 1); } else { assert Pow2(1) == 2; }
  }

  /** A run of k used frames cannot lie above p when n is nearly all that is left beside it. */
  lemma RunLiesBelow(m: Machine, n: nat, p: nat, x: nat, b: nat, k: nat)
    requires m.WellFormed() && OneUsed(m, Window(p), n) && Window(p) + n <= m.total <= n + k + 1
    requires p < x < p + n && x in m.View().marked && p !in m.View().marked
    requires k >= 2 && b + k <= m.total && Block(b, k) <= m.View().marked
    ensures b + k <= p
  {
    var w := Window(p);
    WindowGap(p);
    assert b in Block(b, k) && b + 1 in Block(b, k) && b + k - 1 in Block(b, k);
    assert p in Block(b, k) <==> b <= p < b + k;
    assert w in Block(b, k) <==> b <= w < b + k;
    assert w + 1 in Block(b, k) <==> b <= w + 1 < b + k;
  }

  /** A block that was not clear, for a request nearly as large as the memory left beside a bitmap of
      several frames: the bitmap lies at the very bottom, 32 frames long, and the block right behind it. */
  lemma BadPickOfLargeRequest(m: Machine, n: nat)
    requires m.Inv() && !PickIsClear(m, n)
    requires BitmapFrames(m.total) >= 2 && n + BitmapFrames(m.total) + 1 >= m.total
    ensures BitmapFrames(m.total) == 32 && n + 33 == m.total
  {
    var k := BitmapFrames(m.total);
    var p, x := BadPick(m, n);
    var b := BitmapRun(m);
    RunLiesBelow(m, n, p, x, b, k);
    WindowGap(p);
    assert p == k == 32;
    var s := Block(b, k) + {x};
    BlockSize(b, k);
    SubsetSize(s, m.View().marked);
  }

  /** For every size of memory: PMM_malloc keeps every allocator in good order exactly when the request
      is not an unsafe one. */
  lemma MallocSoundExactlyWhen(total: nat, size: nat)
    ensures (forall m: Machine :: m.Inv() && m.total == total ==> Malloc(m, size).0.Inv())
            <==> !UnsafeRequest(total, SizeToFrames(size))
  {
    if UnsafeRequest(total, SizeToFrames(size)) {
      var m := UnsafeMallocWitness(total, size);
    } else {
      forall m: Machine | m.Inv() && m.total == total ensures Malloc(m, size).0.Inv() {
        SoundRequestIsClear(m, SizeToFrames(size));
        MallocKeepsInvExactlyWhen(m, size);
      }
    }
  }

  lemma SoundRequestIsClear(m: Machine, n: nat)
    requires m.Inv() && !UnsafeRequest(m.total, n)
    ensures PickIsClear(m, n)
  {
    if !PickIsClear(m, n) {
      var p, x := BadPick(m, n);
      BadPickOfLargeRequest(m, n);
    }
  }

  // ----- the address NULL -----

  /** PMM_malloc succeeds with address 0, which its caller takes for failure although the frames are
      now marked, exactly when enough frames are free, frame 0 is, and of the n + 1 behind it n are. */
  lemma SucceedsWithNullExactlyWhen(m: Machine, size: nat)
    requires m.Inv()
    ensures var n := SizeToFrames(size);
            Malloc(m, size).1 == 0 && Malloc(m, size).0 != m
            <==> n > 0 && m.used + n <= m.total && BITSET_SIZE <= m.total && n < m.total
                 && 0 !in m.View().marked && |ClearBits(m.mem, m.base, 1, n + 1)| >= n
  {
    var n := SizeToFrames(size);
    NullIsPickedExactlyWhen(m, n);
    assert Malloc(m, size).1 == 0 && Malloc(m, size).0 != m <==> Pick(m, n) == Some(0);
  }

  lemma NullIsPickedExactlyWhen(m: Machine, n: nat)
    requires m.Inv()
    ensures Pick(m, n) == Some(0)
            <==> n > 0 && m.used + n <= m.total && BITSET_SIZE <= m.total && n < m.total
                 && 0 !in m.View().marked && |ClearBits(m.mem, m.base, 1, n + 1)| >= n
  {
    assert Window(0) == 1;
    if n < m.total { ClearCountCounts(m.mem, m.base, 1, n + 1); }
    FindMeaning(m.mem, m.base, m.total, n, 0);
    assert Candidates(m.total) > 0 <==> m.total >= BITSET_SIZE;
  }

  /** For one frame: unless frame 0 is used, or both frames 1 and 2 are. */
  lemma OneFrameIsNullExactlyWhen(m: Machine)
    requires m.Inv()
    ensures Pick(m, 1) == Some(0)
            <==> BITSET_SIZE <= m.total && 0 !in m.View().marked && !({1, 2} <= m.View().marked)
  {
    NullIsPickedExactlyWhen(m, 1);
    if BITSET_SIZE <= m.total {
      ClearOfTwo(m);
      if 0 !in m.View().marked { UnusedLeavesRoom(m, 0); }
    }
  }

  lemma ClearOfTwo(m: Machine)
    requires m.WellFormed() && BITSET_SIZE <= m.total
    ensures InStore(m.mem, m.base, 2)
    ensures |ClearBits(m.mem, m.base, 1, 2)| >= 1 <==> !({1, 2} <= m.View().marked)
  {
    var free := ClearBits(m.mem, m.base, 1, 2);
    assert 1 in free <==> 1 !in m.View().marked;
    assert 2 in free <==> 2 !in m.View().marked;
    assert forall f :: f in free ==> f == 1 || f == 2;
    if free != {} {
      var f :| f in free;
      SubsetSize({f}, free);
    }
  }

  lemma UnusedLeavesRoom(m: Machine, f: nat)
    requires m.Inv() && f < m.total && f !in m.View().marked
    ensures m.used < m.total
  {
    BlockSize(0, m.total);
    SubsetSize(m.View().marked + {f}, Block(0, m.total));
  }
}
