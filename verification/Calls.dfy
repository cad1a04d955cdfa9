/** Runs of calls: PMM_malloc, PMM_free and client stores, with the search of bitset.c as written and with
    a search of its intended meaning.

    The second search is not in the repository.  It shows that nothing but the search stands between the
    allocator and requests of any size. */
module Calls {
  import opened Words
  import opened Bitset
  import opened Ledger
  import opened Sets
  import opened Frames
  import opened FrameRuns
  import opened Requests

  // ----- a search for consecutive clear bits -----

  /** The n bits from p are clear and inside the bit array. */
  predicate RoomAt(mem: seq<Word>, b: nat, total: nat, n: nat, p: nat)
    requires InStore(mem, b, total)
  {
    p + n <= total && BlockClear(mem, b, p, n)
  }

  /** The lowest p from q on with room for n. */
  function FirstRoom(mem: seq<Word>, b: nat, total: nat, n: nat, q: nat): (r: Option<nat>)
    requires InStore(mem, b, total)
    ensures match r
      case Some(p) => q <= p && RoomAt(mem, b, total, n, p) && forall x :: q <= x < p ==> !RoomAt(mem, b, total, n, x)
      case None => forall p :: q <= p ==> !RoomAt(mem, b, total, n, p)
    decreases total - q
  {
    if RoomAt(mem, b, total, n, q) then Some(q)
    else if q >= total then None
    else FirstRoom(mem, b, total, n, q + 1)
  }

  /** Whatever starts at or before a used bit and reaches beyond it is no room. */
  lemma UsedBitStops(mem: seq<Word>, b: nat, total: nat, n: nat, q: nat, x: nat)
    requires InStore(mem, b, total) && q <= x < total && x < q + n && InStore(mem, b, x) && Test(mem, b, x)
    ensures FirstRoom(mem, b, total, n, q) == FirstRoom(mem, b, total, n, x + 1)
    decreases x - q
  {
    assert !RoomAt(mem, b, total, n, q) by { assert Within(x, q, n); }
    if q < x { UsedBitStops(mem, b, total, n, q + 1, x); }
  }

  /** The run bits in front of x are clear, and there is no room further down. */
  ghost predicate Scanned(mem: seq<Word>, b: nat, total: nat, n: nat, x: nat, run: nat)
    requires InStore(mem, b, total)
  {
    run < n && run <= x <= total && RoomAt(mem, b, total, run, x - run)
    && FirstRoom(mem, b, total, n, 0) == FirstRoom(mem, b, total, n, x - run)
  }

  lemma ScanUsed(mem: seq<Word>, b: nat, total: nat, n: nat, x: nat, run: nat)
    requires InStore(mem, b, total) && x < total && Scanned(mem, b, total, n, x, run) && Test(mem, b, x)
    ensures Scanned(mem, b, total, n, x + 1, 0)
  {
    UsedBitStops(mem, b, total, n, x - run, x);
  }

  lemma ScanClear(mem: seq<Word>, b: nat, total: nat, n: nat, x: nat, run: nat)
    requires InStore(mem, b, total) && x < total && Scanned(mem, b, total, n, x, run) && !Test(mem, b, x)
    ensures if run + 1 == n then FirstRoom(mem, b, total, n, 0) == Some(x - run)
            else Scanned(mem, b, total, n, x + 1, run + 1)
  {
    var q := x - run;
    forall y: nat | y < q + run + 1 && Within(y, q, run + 1) ensures InStore(mem, b, y) && !Test(mem, b, y) {
      if y < x { assert Within(y, q, run); }
    }
    assert RoomAt(mem, b, total, run + 1, q);
  }

  /** One pass that counts the clear bits in a row. */
  method FindContiguous(ram: array<Word>, b: nat, bitsetSize: nat, size: nat) returns (found: bool, pos: nat)
    requires size > 0 && InStore(ram[..], b, bitsetSize)
    ensures (if found then Some(pos) else None) == FirstRoom(ram[..], b, bitsetSize, size, 0)
  {
    var x, run := 0, 0;
    while x < bitsetSize
      invariant Scanned(ram[..], b, bitsetSize, size, x, run)
    {
      var t := TestBit(ram, b, x);
      if t {
        ScanUsed(ram[..], b, bitsetSize, size, x, run);
        run := 0;
      } else {
        ScanClear(ram[..], b, bitsetSize, size, x, run);
        run := run + 1;
        if run == size {
          return true, x + 1 - size;
        }
      }
      x := x + 1;
    }
    found, pos := false, 0;
  }

  // ----- calls -----

  datatype Search = AsWritten | Contiguous

  datatype Call =
    | Malloc(size: nat)
    | Free(ptr: nat, size: nat)
    | Write(index: nat, value: Word)

  /** The block found for n frames. */
  function Found(search: Search, m: Machine, n: nat): Option<nat>
    requires m.WellFormed()
  {
    match search
    case AsWritten => Pick(m, n)
    case Contiguous => if n == 0 || m.total - m.used < n then None else FirstRoom(m.mem, m.base, m.total, n, 0)
  }

  /** What the caller has to see to.  MallocSoundExactlyWhen and FreeKeepsInvExactlyWhen show that for
      the code as written it is no more than what is needed. */
  predicate Duty(search: Search, m: Machine, c: Call) {
    match c
    case Malloc(size) => search == AsWritten ==> !UnsafeRequest(m.total, SizeToFrames(size))
    case Free(ptr, size) => Owned(m.live, ptr / FRAME_SIZE, SizeToFrames(size))
    case Write(i, _) => Covered(m.live, i / FRAME_WORDS)
  }

  /** The event a call amounts to, none if it fails. */
  function EventOf(search: Search, m: Machine, c: Call): Option<Event>
    requires m.WellFormed()
  {
    match c
    case Malloc(size) =>
      (match Found(search, m, SizeToFrames(size))
       case None => None
       case Some(p) => Some(Take(p, SizeToFrames(size))))
    case Free(ptr, size) => Some(GiveBack(ptr / FRAME_SIZE, SizeToFrames(size)))
    case Write(i, v) => Some(Store(i, v))
  }

  lemma DutyIsEnough(search: Search, m: Machine, c: Call)
    requires m.Inv() && Duty(search, m, c)
    ensures EventOf(search, m, c).Some? ==> Permitted(m, EventOf(search, m, c).value)
  {
    if c.Malloc? && search == AsWritten { SoundRequestIsClear(m, SizeToFrames(c.size)); }
  }

  /** The machine after the call. */
  ghost function After(search: Search, m: Machine, c: Call): (r: Machine)
    requires m.Inv() && Duty(search, m, c)
    ensures r.Inv() && SameLayout(m, r)
  {
    DutyIsEnough(search, m, c);
    match EventOf(search, m, c)
    case None => m
    case Some(e) => Step(m, e)
  }

  /** With the search as written these are the functions that the kernel's code is proved against. */
  lemma AsWrittenIsTheKernel(m: Machine, c: Call)
    requires m.Inv() && Duty(AsWritten, m, c)
    ensures match c
      case Malloc(size) => After(AsWritten, m, c) == Frames.Malloc(m, size).0
      case Free(ptr, size) => Frames.Free(m, ptr, size) == Some(After(AsWritten, m, c))
      case Write(i, v) => i < |m.mem| && After(AsWritten, m, c) == Frames.Write(m, i, v)
  {
    DutyIsEnough(AsWritten, m, c);
    match c
    case Malloc(size) =>
    case Free(ptr, size) => FreeBlock(m, ptr / FRAME_SIZE, SizeToFrames(size));
    case Write(i, v) => ClientWriteKeepsBooks(m, i, v);
  }

  /** The duties are no more than what is needed: a request that is not allowed breaks some allocator of
      this size, and a free that is not allowed panics or breaks this one, or frees nothing. */
  lemma DutyIsNeeded(m: Machine, size: nat, ptr: nat)
    requires m.Inv()
    ensures Duty(AsWritten, m, Malloc(size)) <==>
              forall w: Machine :: w.Inv() && w.total == m.total ==> Frames.Malloc(w, size).0.Inv()
    ensures Duty(Contiguous, m, Malloc(size))
    ensures SizeToFrames(size) > 0 ==>
              (Duty(AsWritten, m, Free(ptr, size)) <==>
                 Frames.Free(m, ptr, size).Some? && Frames.Free(m, ptr, size).value.Inv())
    ensures Duty(AsWritten, m, Free(ptr, size)) <==> Duty(Contiguous, m, Free(ptr, size))
  {
    MallocSoundExactlyWhen(m.total, size);
    FreeKeepsInvExactlyWhen(m, ptr, size);
  }

  /** A request that the contiguous search turns down could not have been met. */
  lemma ContiguousFailsOnlyWhenFull(m: Machine, n: nat)
    requires m.Inv() && n > 0
    ensures Found(Contiguous, m, n).None? <==> !HasRoom(m.mem, m.base, m.total, n)
  {
    forall p: nat | RoomAt(m.mem, m.base, m.total, n, p) ensures m.used + n <= m.total {
      ClearIsFresh(m, p, n);
    }
    if HasRoom(m.mem, m.base, m.total, n) {
      var p: nat :| p + n <= m.total && BlockClear(m.mem, m.base, p, n);
      assert RoomAt(m.mem, m.base, m.total, n, p);
    }
  }

  ghost predicate Dutiful(search: Search, m: Machine, cs: seq<Call>)
    requires m.Inv()
    decreases |cs|
  {
    cs == [] || (Duty(search, m, cs[0]) && Dutiful(search, After(search, m, cs[0]), cs[1..]))
  }

  ghost function Calling(search: Search, m: Machine, cs: seq<Call>): (r: Machine)
    requires m.Inv() && Dutiful(search, m, cs)
    ensures r.Inv()
    decreases |cs|
  {
    if cs == [] then m else Calling(search, After(search, m, cs[0]), cs[1..])
  }

  /** The events of a run of calls. */
  ghost function EventsOf(search: Search, m: Machine, cs: seq<Call>): seq<Event>
    requires m.Inv() && Dutiful(search, m, cs)
    decreases |cs|
  {
    if cs == [] then []
    else
      var rest := EventsOf(search, After(search, m, cs[0]), cs[1..]);
      match EventOf(search, m, cs[0])
      case None => rest
      case Some(e) => [e] + rest
  }

  /** A run of calls whose callers do their duty is a permitted run of events, whichever search is used. */
  lemma {:induction false} CallsAreEvents(search: Search, m: Machine, cs: seq<Call>)
    requires m.Inv() && Dutiful(search, m, cs)
    ensures var es := EventsOf(search, m, cs);
            PermittedRun(m, es) && Run(m, es) == Calling(search, m, cs)
    decreases |cs|
  {
    if cs != [] {
      DutyIsEnough(search, m, cs[0]);
      var m' := After(search, m, cs[0]);
      CallsAreEvents(search, m', cs[1..]);
      if EventOf(search, m, cs[0]).Some? {
        var es := EventsOf(search, m, cs);
        assert es[1..] == EventsOf(search, m', cs[1..]);
      }
    }
  }

  /** So the books are right after every run of calls, with either search. */
  lemma CallsAreSafe(search: Search, m: Machine, cs: seq<Call>)
    requires m.Inv() && Dutiful(search, m, cs)
    ensures var r := Calling(search, m, cs);
            && r.Inv() && r.base == m.base && r.total == m.total && r.reserved == m.reserved
            && r.used == |Members(r.mem, r.base, r.total)| <= r.total
            && (forall f: nat :: f < r.total ==>
                  InStore(r.mem, r.base, f) && (Test(r.mem, r.base, f) <==> f in r.reserved || Covered(r.live, f)))
            && (forall s, t :: s in r.live && t in r.live && s != t ==> Block(s, r.live[s]) !! Block(t, r.live[t]))
            && (forall s :: s in r.live ==> Block(s, r.live[s]) !! r.reserved)
  {
    CallsAreEvents(search, m, cs);
    RunIsSafe(m, EventsOf(search, m, cs));
  }

  /** The call frees the block at s or stores into its n frames. */
  predicate CallTouches(c: Call, s: nat, n: nat) {
    match c
    case Malloc(_) => false
    case Free(ptr, _) => ptr / FRAME_SIZE == s
    case Write(i, _) => s <= i / FRAME_WORDS < s + n
  }

  lemma {:induction false} EventsTouchNoMore(search: Search, m: Machine, cs: seq<Call>, s: nat, n: nat)
    requires m.Inv() && Dutiful(search, m, cs)
    requires forall c :: c in cs ==> !CallTouches(c, s, n)
    ensures forall e :: e in EventsOf(search, m, cs) ==> !Touches(e, s, n)
    decreases |cs|
  {
    if cs != [] {
      EventsTouchNoMore(search, After(search, m, cs[0]), cs[1..], s, n);
      assert !CallTouches(cs[0], s, n);
    }
  }

  /** And a live block's contents change only by stores into that block. */
  lemma CallsIsolate(search: Search, m: Machine, cs: seq<Call>, s: nat, n: nat)
    requires m.Inv() && Dutiful(search, m, cs) && Owned(m.live, s, n)
    requires forall c :: c in cs ==> !CallTouches(c, s, n)
    ensures Owned(Calling(search, m, cs).live, s, n) && SameContents(m, Calling(search, m, cs), s, n)
  {
    CallsAreEvents(search, m, cs);
    EventsTouchNoMore(search, m, cs, s, n);
    LiveBlockIsolated(m, EventsOf(search, m, cs), s, n);
  }
}
