/** Whole runs of the frame allocator: frames taken, frames given back, and client stores, in any mix.
    No search appears here: a run may take any clear block, however it was found. */
module FrameRuns {
  import opened Words
  import opened Bitset
  import opened Ledger
  import opened Sets
  import opened Frames

  datatype Event =
    | Take(first: nat, frames: nat)
    | GiveBack(first: nat, frames: nat)
    | Store(index: nat, value: Word)

  /** What a run needs of each event: a clear block in range, a whole live block, a store inside a
      live block.  MallocKeepsInvExactlyWhen and FreeKeepsInvExactlyWhen show that no less will do. */
  predicate Permitted(m: Machine, e: Event)
    requires m.WellFormed()
  {
    match e
    case Take(p, n) =>
      n > 0 && p + n <= m.total && InStore(m.mem, m.base, p + n) && BlockClear(m.mem, m.base, p, n)
    case GiveBack(p, n) => Owned(m.live, p, n)
    case Store(i, _) => Covered(m.live, i / FRAME_WORDS)
  }

  ghost function Step(m: Machine, e: Event): (r: Machine)
    requires m.Inv() && Permitted(m, e)
    ensures r.Inv() && SameLayout(m, r)
  {
    match e
    case Take(p, n) =>
      TakeClearBlock(m, p, n);
      TakeFrames(m, p, n)
    case GiveBack(p, n) =>
      FreeBlock(m, p, n);
      ReturnFrames(m, p, n)
    case Store(i, v) =>
      ClientWriteKeepsBooks(m, i, v);
      Write(m, i, v)
  }

  ghost predicate PermittedRun(m: Machine, es: seq<Event>)
    requires m.Inv()
    decreases |es|
  {
    es == [] || (Permitted(m, es[0]) && PermittedRun(Step(m, es[0]), es[1..]))
  }

  ghost function Run(m: Machine, es: seq<Event>): Machine
    requires m.Inv() && PermittedRun(m, es)
    decreases |es|
  {
    if es == [] then m else Run(Step(m, es[0]), es[1..])
  }

  /** Safety over whole runs: after any permitted run the bitmap marks exactly the boot-reserved and
      the live frames, the counter counts them (so used + free is the total), live blocks overlap
      neither each other nor a reserved frame, and the bitmap has not moved. */
  lemma {:induction false} RunIsSafe(m: Machine, es: seq<Event>)
    requires m.Inv() && PermittedRun(m, es)
    ensures var r := Run(m, es);
            && r.Inv() && r.base == m.base && r.total == m.total && r.reserved == m.reserved
            && (forall f: nat :: f < r.total ==>
                  InStore(r.mem, r.base, f) && (Test(r.mem, r.base, f) <==> f in r.reserved || Covered(r.live, f)))
            && r.used == |Members(r.mem, r.base, r.total)| <= r.total
            && (forall s, t :: s in r.live && t in r.live && s != t ==> Block(s, r.live[s]) !! Block(t, r.live[t]))
            && (forall s :: s in r.live ==> Block(s, r.live[s]) !! r.reserved)
    decreases |es|
  {
    if es == [] {
      BooksMeaning(m);
    } else {
      RunIsSafe(Step(m, es[0]), es[1..]);
    }
  }

  lemma BooksMeaning(m: Machine)
    requires m.Inv()
    ensures forall f: nat :: f < m.total ==>
              InStore(m.mem, m.base, f) && (Test(m.mem, m.base, f) <==> f in m.reserved || Covered(m.live, f))
    ensures m.used == |Members(m.mem, m.base, m.total)|
    ensures forall s, t :: s in m.live && t in m.live && s != t ==> Block(s, m.live[s]) !! Block(t, m.live[t])
    ensures forall s :: s in m.live ==> Block(s, m.live[s]) !! m.reserved
  {
    forall f: nat | f < m.total
      ensures InStore(m.mem, m.base, f) && (Test(m.mem, m.base, f) <==> f in m.reserved || Covered(m.live, f))
    {
      assert f in m.View().marked <==> Test(m.mem, m.base, f);
    }
    forall s | s in m.live ensures Block(s, m.live[s]) !! m.reserved {
      forall f | f in Block(s, m.live[s]) ensures f !in m.reserved {
        assert Covered(m.live, f);
      }
    }
    forall s, t | s in m.live && t in m.live && s != t ensures Block(s, m.live[s]) !! Block(t, m.live[t]) {
      if s < t { assert s + m.live[s] <= t; } else { assert t + m.live[t] <= s; }
    }
  }

  // ----- isolation -----

  /** The event gives back the block at s or stores into its n frames. */
  predicate Touches(e: Event, s: nat, n: nat) {
    match e
    case Take(_, _) => false
    case GiveBack(p, _) => p == s
    case Store(i, _) => s <= i / FRAME_WORDS < s + n
  }

  predicate SameContents(m1: Machine, m2: Machine, s: nat, n: nat) {
    FRAME_WORDS * (s + n) <= |m1.mem| && FRAME_WORDS * (s + n) <= |m2.mem| &&
    m1.mem[FRAME_WORDS * s..FRAME_WORDS * (s + n)] == m2.mem[FRAME_WORDS * s..FRAME_WORDS * (s + n)]
  }

  /** The words of a live block are not bitmap words. */
  lemma LiveWordIsNotBitmap(m: Machine, s: nat, n: nat, i: nat)
    requires m.Inv() && Owned(m.live, s, n) && FRAME_WORDS * s <= i < FRAME_WORDS * (s + n)
    ensures i < |m.mem| && (i < m.base || (m.total > 0 && m.base + (m.total - 1) / BITSET_SIZE < i))
  {
    var f := i / FRAME_WORDS;
    assert s <= f < s + m.live[s];
    assert Covered(m.live, f);
    assert !m.HoldsBitmap(f);
    assert s + m.live[s] <= m.total;
  }

  lemma SetKeepsContents(m: Machine, p: nat, k: nat, s: nat, n: nat)
    requires m.Inv() && Owned(m.live, s, n) && p + k <= m.total && InStore(m.mem, m.base, p + k)
    ensures SameContents(m, m.(mem := SetRange(m.mem, m.base, p, k)), s, n)
  {
    assert s in m.live && s + m.live[s] <= m.total;
    forall i: nat | FRAME_WORDS * s <= i < FRAME_WORDS * (s + n)
      ensures SetRange(m.mem, m.base, p, k)[i] == m.mem[i]
    {
      LiveWordIsNotBitmap(m, s, n, i);
      SetRangeFrame(m.mem, m.base, p, k, i);
    }
  }

  lemma ClearKeepsContents(m: Machine, p: nat, k: nat, s: nat, n: nat)
    requires m.Inv() && Owned(m.live, s, n) && p + k <= m.total
    ensures SameContents(m, m.(mem := ClearRange(m.mem, m.base, p, k)), s, n)
  {
    assert s in m.live && s + m.live[s] <= m.total;
    forall i: nat | FRAME_WORDS * s <= i < FRAME_WORDS * (s + n)
      ensures ClearRange(m.mem, m.base, p, k)[i] == m.mem[i]
    {
      LiveWordIsNotBitmap(m, s, n, i);
      ClearRangeFrame(m.mem, m.base, p, k, i);
    }
  }

  lemma TakeIsolates(m: Machine, p: nat, k: nat, s: nat, n: nat)
    requires m.Inv() && Permitted(m, Take(p, k)) && Owned(m.live, s, n)
    ensures Owned(TakeFrames(m, p, k).live, s, n) && SameContents(m, TakeFrames(m, p, k), s, n)
  {
    TakeClearBlock(m, p, k);
    SetKeepsContents(m, p, k, s, n);
  }

  lemma GiveBackIsolates(m: Machine, p: nat, k: nat, s: nat, n: nat)
    requires m.Inv() && Owned(m.live, p, k) && Owned(m.live, s, n) && p != s
    ensures k <= m.used && Owned(ReturnFrames(m, p, k).live, s, n) && SameContents(m, ReturnFrames(m, p, k), s, n)
  {
    OwnedIsMarked(m.View(), p, k);
    assert p in m.live;
    ClearKeepsContents(m, p, k, s, n);
  }

  lemma StepIsolates(m: Machine, e: Event, s: nat, n: nat)
    requires m.Inv() && Permitted(m, e) && Owned(m.live, s, n) && !Touches(e, s, n)
    ensures Owned(Step(m, e).live, s, n) && SameContents(m, Step(m, e), s, n)
  {
    match e
    case Take(p, k) => TakeIsolates(m, p, k, s, n);
    case GiveBack(p, k) => GiveBackIsolates(m, p, k, s, n);
    case Store(i, v) =>
      assert s in m.live;
      ClientWriteKeepsBooks(m, i, v);
  }

  lemma {:induction false} LiveBlockStays(m: Machine, es: seq<Event>, s: nat, n: nat)
    requires m.Inv() && PermittedRun(m, es) && Owned(m.live, s, n)
    requires forall e :: e in es ==> !Touches(e, s, n)
    ensures Owned(Run(m, es).live, s, n) && SameContents(m, Run(m, es), s, n)
    decreases |es|
  {
    if es == [] {
      assert s in m.live;
    } else {
      StepIsolates(m, es[0], s, n);
      LiveBlockStays(Step(m, es[0]), es[1..], s, n);
    }
  }

  lemma SameWords(a: seq<Word>, b: seq<Word>, lo: nat, hi: nat)
    requires lo <= hi <= |a| && hi <= |b| && a[lo..hi] == b[lo..hi]
    ensures forall i :: lo <= i < hi ==> a[i] == b[i]
  {
    forall i | lo <= i < hi ensures a[i] == b[i] {
      assert a[lo..hi][i - lo] == b[lo..hi][i - lo];
    }
  }

  /** Isolation: over any permitted run a block that is not freed stays live, and its words change only
      by stores into that block, whatever is allocated, freed or written elsewhere. */
  lemma LiveBlockIsolated(m: Machine, es: seq<Event>, s: nat, n: nat)
    requires m.Inv() && PermittedRun(m, es) && Owned(m.live, s, n)
    requires forall e :: e in es ==> !Touches(e, s, n)
    ensures var r := Run(m, es);
            && Owned(r.live, s, n) && SameContents(m, r, s, n)
            && 1024 * (s + n) <= |m.mem| && 1024 * (s + n) <= |r.mem|
            && forall i :: 1024 * s <= i < 1024 * (s + n) ==> r.mem[i] == m.mem[i]
  {
    LiveBlockStays(m, es, s, n);
    SameWords(Run(m, es).mem, m.mem, 1024 * s, 1024 * (s + n));
  }

  // ----- undoing and reordering -----

  lemma SetThenClear(mem: seq<Word>, b: nat, p: nat, n: nat)
    requires InStore(mem, b, p + n) && BlockClear(mem, b, p, n)
    ensures ClearRange(SetRange(mem, b, p, n), b, p, n) == mem
  {
    var m1 := SetRange(mem, b, p, n);
    var m2 := ClearRange(m1, b, p, n);
    forall i: nat | i < b && i < |m2| ensures m2[i] == mem[i] {
      SetRangeFrame(mem, b, p, n, i);
      ClearRangeFrame(m1, b, p, n, i);
    }
    forall y: nat | InStore(m2, b, y) ensures Test(m2, b, y) == Test(mem, b, y) {
      SetRangeInserts(mem, b, p, n, y);
      ClearRangeRemoves(m1, b, p, n, y);
      if p <= y < p + n { assert Within(y, p, n); }
    }
    SameStore(m2, mem, b);
  }

  lemma ReturnUndoesTake(m: Machine, p: nat, n: nat)
    requires InStore(m.mem, m.base, p + n) && BlockClear(m.mem, m.base, p, n) && p !in m.live
    ensures ReturnFrames(TakeFrames(m, p, n), p, n) == m
  {
    SetThenClear(m.mem, m.base, p, n);
    assert m.live[p := n] - {p} == m.live;
  }

  /** Freeing what was just allocated restores the memory bit for bit, the counter and the ledger,
      exactly when the block was clear. */
  lemma FreeUndoesMallocExactlyWhen(m: Machine, size: nat)
    requires m.Inv() && Pick(m, SizeToFrames(size)).Some?
    ensures var (m', ptr) := Malloc(m, size);
            Free(m', ptr, size) == Some(m) <==> PickIsClear(m, SizeToFrames(size))
  {
    var n := SizeToFrames(size);
    var p := Pick(m, n).value;
    assert p * FRAME_SIZE / FRAME_SIZE == p;
    if PickIsClear(m, n) {
      TakeClearBlock(m, p, n);
      ReturnUndoesTake(m, p, n);
    } else {
      var x: nat :| x < p + n && Within(x, p, n) && Test(m.mem, m.base, x);
      var mem := SetRange(m.mem, m.base, p, n);
      ClearRangeRemoves(mem, m.base, p, n, x);
      assert Test(ClearRange(mem, m.base, p, n), m.base, x) != Test(m.mem, m.base, x);
    }
  }

  lemma ClearsCommute(mem: seq<Word>, b: nat, p: nat, n: nat, q: nat, k: nat)
    ensures ClearRange(ClearRange(mem, b, p, n), b, q, k) == ClearRange(ClearRange(mem, b, q, k), b, p, n)
  {
    var mp, mq := ClearRange(mem, b, p, n), ClearRange(mem, b, q, k);
    var m1, m2 := ClearRange(mp, b, q, k), ClearRange(mq, b, p, n);
    forall i: nat | i < b && i < |m1| ensures m1[i] == m2[i] {
      ClearRangeFrame(mem, b, p, n, i);
      ClearRangeFrame(mem, b, q, k, i);
      ClearRangeFrame(mp, b, q, k, i);
      ClearRangeFrame(mq, b, p, n, i);
    }
    forall y: nat | InStore(m1, b, y) ensures Test(m1, b, y) == Test(m2, b, y) {
      ClearRangeRemoves(mem, b, p, n, y);
      ClearRangeRemoves(mem, b, q, k, y);
      ClearRangeRemoves(mp, b, q, k, y);
      ClearRangeRemoves(mq, b, p, n, y);
    }
    SameStore(m1, m2, b);
  }

  lemma ReturnsCommute(m: Machine, p: nat, n: nat, q: nat, k: nat)
    requires Owned(m.live, p, n) && Owned(m.live, q, k) && p != q && n + k <= m.used
    ensures Owned(ReturnFrames(m, p, n).live, q, k) && Owned(ReturnFrames(m, q, k).live, p, n)
    ensures ReturnFrames(ReturnFrames(m, p, n), q, k) == ReturnFrames(ReturnFrames(m, q, k), p, n)
  {
    ClearsCommute(m.mem, m.base, p, n, q, k);
    assert m.live - {p} - {q} == m.live - {q} - {p};
  }

  /** The order in which two different live blocks are freed does not matter. */
  lemma FreesCommute(m: Machine, p: nat, n: nat, q: nat, k: nat)
    requires m.Inv() && Owned(m.live, p, n) && Owned(m.live, q, k) && p != q
    ensures n + k <= m.used
    ensures ReturnFrames(ReturnFrames(m, p, n), q, k) == ReturnFrames(ReturnFrames(m, q, k), p, n)
  {
    OwnedIsMarked(m.View(), p, n);
    ReleaseKeepsBooks(m.View(), p, n);
    OwnedIsMarked(m.View().Release(p, n), q, k);
    ReturnsCommute(m, p, n, q, k);
  }
}
