/** The books of a frame allocator: which frames are marked used, how many the counter says, and
    which blocks were handed out.  No memory and no bitmap here, only sets and intervals. */
module Ledger {
  import opened Sets

  /** Frame f lies in some block of the ledger. */
  predicate Covered(live: map<nat, nat>, f: nat) {
    exists s :: s in live && s <= f < s + live[s]
  }

  /** The block at p with n frames is in the ledger. */
  predicate Owned(live: map<nat, nat>, p: nat, n: nat) {
    p in live && live[p] == n
  }

  datatype Books = Books(total: nat, marked: set<nat>, count: nat, reserved: set<nat>, live: map<nat, nat>)
  {
    /** Blocks are non-empty and in range, in order and without overlap, and off the reserved frames. */
    ghost predicate BlocksOk() {
      && (forall s :: s in live ==> live[s] > 0 && s + live[s] <= total)
      && (forall s, t :: s in live && t in live && s < t ==> s + live[s] <= t)
      && (forall f: nat :: f in reserved ==> !Covered(live, f))
    }

    /** Marked frames are exactly the reserved and the live ones, and the counter counts them. */
    ghost predicate Ok() {
      && BlocksOk()
      && (forall f: nat :: f in marked <==> f in reserved || Covered(live, f))
      && (forall f: nat :: f in marked ==> f < total)
      && count == |marked|
    }

    function Take(p: nat, n: nat): Books {
      this.(marked := marked + Block(p, n), count := count + n, live := live[p := n])
    }

    function Release(p: nat, n: nat): Books
      requires n <= count
    {
      this.(marked := marked - Block(p, n), count := count - n,
            live := if Owned(live, p, n) then live - {p} else live)
    }
  }

  lemma CoveredAfterInsert(live: map<nat, nat>, p: nat, n: nat, f: nat)
    requires p !in live
    ensures Covered(live[p := n], f) <==> Covered(live, f) || p <= f < p + n
  {
    var live' := live[p := n];
    if p <= f < p + n {
      assert p in live' && p <= f < p + live'[p];
    }
    if Covered(live, f) {
      var s :| s in live && s <= f < s + live[s];
      assert s in live' && s <= f < s + live'[s];
    }
  }

  lemma CoveredAfterRemove(live: map<nat, nat>, p: nat, f: nat)
    requires p in live
    requires forall s, t :: s in live && t in live && s < t ==> s + live[s] <= t
    ensures Covered(live - {p}, f) <==> Covered(live, f) && !(p <= f < p + live[p])
  {
    var live' := live - {p};
    if Covered(live', f) {
      var s :| s in live' && s <= f < s + live'[s];
      assert s in live && s <= f < s + live[s];
    }
    if Covered(live, f) && !(p <= f < p + live[p]) {
      var s :| s in live && s <= f < s + live[s];
      assert s in live' && s <= f < s + live'[s];
    }
  }

  /** A live block next to an uncovered run lies on one side of it. */
  lemma BlockBeside(live: map<nat, nat>, p: nat, n: nat, s: nat)
    requires s in live && live[s] > 0 && n > 0
    requires forall f: nat :: p <= f < p + n ==> !Covered(live, f)
    ensures s + live[s] <= p || p + n <= s
  {
    assert Covered(live, s) by { assert s <= s < s + live[s]; }
    assert !Covered(live, p);
    assert !(s <= p < s + live[s]);
  }

  lemma BlocksAfterTake(b: Books, p: nat, n: nat)
    requires b.BlocksOk() && n > 0 && p + n <= b.total
    requires forall f: nat :: p <= f < p + n ==> !Covered(b.live, f) && f !in b.reserved
    ensures p !in b.live && b.Take(p, n).BlocksOk()
  {
    forall s | s in b.live ensures s != p && (s + b.live[s] <= p || p + n <= s) {
      BlockBeside(b.live, p, n, s);
    }
    forall f: nat | f in b.reserved ensures !Covered(b.live[p := n], f) {
      CoveredAfterInsert(b.live, p, n, f);
    }
  }

  /** Handing out a run of unmarked frames keeps the books. */
  lemma TakeKeepsBooks(b: Books, p: nat, n: nat)
    requires b.Ok() && n > 0 && p + n <= b.total && Block(p, n) !! b.marked
    ensures p !in b.live && b.Take(p, n).Ok()
  {
    forall f: nat | p <= f < p + n ensures !Covered(b.live, f) && f !in b.reserved {
      assert f in Block(p, n);
    }
    BlocksAfterTake(b, p, n);
    forall f: nat ensures Covered(b.live[p := n], f) <==> Covered(b.live, f) || f in Block(p, n) {
      CoveredAfterInsert(b.live, p, n, f);
    }
    BlockSize(p, n);
  }

  /** ... and handing out a run with a marked frame in it breaks them: the counter runs ahead. */
  lemma OverlapBreaksBooks(b: Books, p: nat, n: nat, x: nat)
    requires b.Ok() && x in b.marked && x in Block(p, n)
    ensures !b.Take(p, n).Ok()
  {
    var extra := Block(p, n) - b.marked;
    BlockSize(p, n);
    assert b.marked + Block(p, n) == b.marked + extra;
    assert extra <= Block(p, n) - {x};
    SubsetSize(extra, Block(p, n) - {x});
    SubsetSize({x}, Block(p, n));
  }

  lemma OwnedIsMarked(b: Books, p: nat, n: nat)
    requires b.Ok() && Owned(b.live, p, n)
    ensures Block(p, n) <= b.marked && Block(p, n) !! b.reserved && n <= b.count
  {
    forall f | f in Block(p, n) ensures f in b.marked && f !in b.reserved {
      assert Covered(b.live, f);
    }
    BlockSize(p, n);
    SubsetSize(Block(p, n), b.marked);
  }

  /** Taking back a whole live block keeps the books. */
  lemma ReleaseKeepsBooks(b: Books, p: nat, n: nat)
    requires b.Ok() && Owned(b.live, p, n)
    ensures n <= b.count && b.Release(p, n).Ok()
  {
    OwnedIsMarked(b, p, n);
    var b' := b.Release(p, n);
    forall f: nat ensures Covered(b'.live, f) <==> Covered(b.live, f) && f !in Block(p, n) {
      CoveredAfterRemove(b.live, p, f);
    }
    BlockSize(p, n);
    SubsetSize(Block(p, n), b.marked);
  }

  /** ... and taking back anything else breaks them. */
  lemma ForeignReleaseBreaksBooks(b: Books, p: nat, n: nat)
    requires b.Ok() && 0 < n <= b.count && !Owned(b.live, p, n)
    ensures !b.Release(p, n).Ok()
  {
    var b' := b.Release(p, n);
    assert b'.Ok() ==> b'.marked == b.marked;
  }
}
