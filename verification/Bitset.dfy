/** kernel/src/lib/bitset.c: a bit array laid over 32-bit words of physical memory.

    Memory is a sequence of words, the bit array starts at word `b`; the words are not
    owned by the bit array, they are part of the memory it manages. */
module Bitset {
  import opened Sets
  import opened Words

  const BITSET_SIZE: nat := 32

  // The sizes PMM.c can pass: 2^20 frames of 4 KB are the whole 32-bit address space.
  const MAX_FRAMES: nat := 0x10_0000

  /** Reading bit x stays inside the memory. */
  predicate InStore(mem: seq<Word>, b: nat, x: nat) {
    b + x / BITSET_SIZE < |mem|
  }

  predicate Test(mem: seq<Word>, b: nat, x: nat)
    requires InStore(mem, b, x)
  {
    Bit(mem[b + x / BITSET_SIZE], x % BITSET_SIZE)
  }

  function SetAt(mem: seq<Word>, b: nat, x: nat): (r: seq<Word>)
    requires InStore(mem, b, x)
    ensures |r| == |mem|
  {
    Pow2IsWord(x % BITSET_SIZE);
    Pow2Of32();
    BitOrBound(mem[b + x / BITSET_SIZE], Pow2(x % BITSET_SIZE), 32);
    mem[b + x / BITSET_SIZE := BitOr(mem[b + x / BITSET_SIZE], Pow2(x % BITSET_SIZE))]
  }

  /** bitset_clear checks no bound; a store to an address without memory has no effect. */
  function ClearAt(mem: seq<Word>, b: nat, x: nat): (r: seq<Word>)
    ensures |r| == |mem|
  {
    if InStore(mem, b, x) then
      BitClearBound(mem[b + x / BITSET_SIZE], Pow2(x % BITSET_SIZE));
      mem[b + x / BITSET_SIZE := BitClear(mem[b + x / BITSET_SIZE], Pow2(x % BITSET_SIZE))]
    else mem
  }

  /** The bits below n as a set of indices: the mathematical set the words stand for. */
  function Members(mem: seq<Word>, b: nat, n: nat): set<nat>
    requires InStore(mem, b, n)
  {
    set x: nat | x < n && Test(mem, b, x)
  }

  lemma SameIndex(x: nat, y: nat)
    ensures x / BITSET_SIZE == y / BITSET_SIZE && x % BITSET_SIZE == y % BITSET_SIZE <==> x == y
  {
  }

  /** bitset_set inserts x: in its own word and in all the others, every other bit stays. */
  lemma SetAtInserts(mem: seq<Word>, b: nat, x: nat, y: nat)
    requires InStore(mem, b, x) && InStore(mem, b, y)
    ensures Test(SetAt(mem, b, x), b, y) <==> y == x || Test(mem, b, y)
  {
    SameIndex(x, y);
    BitOrBit(mem[b + x / BITSET_SIZE], Pow2(x % BITSET_SIZE), y % BITSET_SIZE);
    PowerBit(x % BITSET_SIZE, y % BITSET_SIZE);
  }

  lemma ClearAtRemoves(mem: seq<Word>, b: nat, x: nat, y: nat)
    requires InStore(mem, b, y)
    ensures Test(ClearAt(mem, b, x), b, y) <==> y != x && Test(mem, b, y)
  {
    SameIndex(x, y);
    if InStore(mem, b, x) {
      BitClearBit(mem[b + x / BITSET_SIZE], Pow2(x % BITSET_SIZE), y % BITSET_SIZE);
      PowerBit(x % BITSET_SIZE, y % BITSET_SIZE);
    }
  }

  /** The loop of PMM_malloc that sets `n` bits from `p`. */
  function SetRange(mem: seq<Word>, b: nat, p: nat, n: nat): (r: seq<Word>)
    requires InStore(mem, b, p + n)
    ensures |r| == |mem|
  {
    if n == 0 then mem else SetAt(SetRange(mem, b, p, n - 1), b, p + n - 1)
  }

  /** The loop of PMM_free that clears `n` bits from `p`. */
  function ClearRange(mem: seq<Word>, b: nat, p: nat, n: nat): (r: seq<Word>)
    ensures |r| == |mem|
  {
    if n == 0 then mem else ClearAt(ClearRange(mem, b, p, n - 1), b, p + n - 1)
  }

  lemma {:induction false} SetRangeInserts(mem: seq<Word>, b: nat, p: nat, n: nat, y: nat)
    requires InStore(mem, b, p + n) && InStore(mem, b, y)
    ensures Test(SetRange(mem, b, p, n), b, y) <==> p <= y < p + n || Test(mem, b, y)
  {
    if n > 0 {
      SetRangeInserts(mem, b, p, n - 1, y);
      SetAtInserts(SetRange(mem, b, p, n - 1), b, p + n - 1, y);
    }
  }

  lemma {:induction false} ClearRangeRemoves(mem: seq<Word>, b: nat, p: nat, n: nat, y: nat)
    requires InStore(mem, b, y)
    ensures Test(ClearRange(mem, b, p, n), b, y) <==> !(p <= y < p + n) && Test(mem, b, y)
  {
    if n > 0 {
      ClearRangeRemoves(mem, b, p, n - 1, y);
      ClearAtRemoves(ClearRange(mem, b, p, n - 1), b, p + n - 1, y);
    }
  }

  /** Setting or clearing a range touches only the words that hold bits of the range. */
  lemma {:induction false} SetRangeFrame(mem: seq<Word>, b: nat, p: nat, n: nat, i: nat)
    requires InStore(mem, b, p + n) && i < |mem|
    requires n == 0 || i < b + p / BITSET_SIZE || b + (p + n - 1) / BITSET_SIZE < i
    ensures SetRange(mem, b, p, n)[i] == mem[i]
  {
    if n > 0 { SetRangeFrame(mem, b, p, n - 1, i); }
  }

  lemma {:induction false} ClearRangeFrame(mem: seq<Word>, b: nat, p: nat, n: nat, i: nat)
    requires i < |mem|
    requires n == 0 || i < b + p / BITSET_SIZE || b + (p + n - 1) / BITSET_SIZE < i
    ensures ClearRange(mem, b, p, n)[i] == mem[i]
  {
    if n > 0 { ClearRangeFrame(mem, b, p, n - 1, i); }
  }

  /** Two memories that agree below the bit array and on every bit from there on are equal. */
  lemma SameStore(m1: seq<Word>, m2: seq<Word>, b: nat)
    requires |m1| == |m2|
    requires forall i: nat :: i < b && i < |m1| ==> m1[i] == m2[i]
    requires forall y: nat :: InStore(m1, b, y) ==> Test(m1, b, y) == Test(m2, b, y)
    ensures m1 == m2
  {
    forall i: nat | b <= i < |m1| ensures m1[i] == m2[i] {
      forall k: nat | k < 32 ensures Bit(m1[i], k) == Bit(m2[i], k) {
        var y := (i - b) * 32 + k;
        assert y / BITSET_SIZE == i - b && y % BITSET_SIZE == k;
        assert InStore(m1, b, y);
        assert Test(m1, b, y) == Test(m2, b, y);
      }
      SameWord(m1[i], m2[i]);
    }
  }

  lemma MembersAfterSet(mem: seq<Word>, b: nat, p: nat, n: nat, total: nat)
    requires InStore(mem, b, total) && p + n <= total && InStore(mem, b, p + n)
    ensures Members(SetRange(mem, b, p, n), b, total) == Members(mem, b, total) + Block(p, n)
  {
    forall y: nat | y < total
      ensures InStore(mem, b, y) && (Test(SetRange(mem, b, p, n), b, y) <==> p <= y < p + n || Test(mem, b, y))
    {
      SetRangeInserts(mem, b, p, n, y);
    }
  }

  lemma MembersAfterClear(mem: seq<Word>, b: nat, p: nat, n: nat, total: nat)
    requires InStore(mem, b, total)
    ensures Members(ClearRange(mem, b, p, n), b, total) == Members(mem, b, total) - Block(p, n)
  {
    forall y: nat | y < total
      ensures InStore(mem, b, y) && (Test(ClearRange(mem, b, p, n), b, y) <==> !(p <= y < p + n) && Test(mem, b, y))
    {
      ClearRangeRemoves(mem, b, p, n, y);
    }
  }

  // ----- bitset_set, bitset_clear, bitset_test on the memory itself -----

  method Set(ram: array<Word>, b: nat, bit: nat)
    requires InStore(ram[..], b, bit)
    modifies ram
    ensures ram[..] == SetAt(old(ram[..]), b, bit)
  {
    var i, mask := b + bit / BITSET_SIZE, Pow2(bit % BITSET_SIZE);
    Pow2IsWord(bit % BITSET_SIZE);
    Pow2Of32();
    BitOrBound(ram[i], mask, 32);
    ram[i] := BitOr(ram[i], mask);
  }

  method Clear(ram: array<Word>, b: nat, bit: nat)
    modifies ram
    ensures ram[..] == ClearAt(old(ram[..]), b, bit)
  {
    var i, mask := b + bit / BITSET_SIZE, Pow2(bit % BITSET_SIZE);
    if i < ram.Length {
      BitClearBound(ram[i], mask);
      ram[i] := BitClear(ram[i], mask);
    }
  }

  method TestBit(ram: array<Word>, b: nat, bit: nat) returns (r: bool)
    requires InStore(ram[..], b, bit)
    ensures r == Test(ram[..], b, bit)
  {
    r := BitAnd(ram[b + bit / BITSET_SIZE], Pow2(bit % BITSET_SIZE)) != 0;
    MaskTest(ram[b + bit / BITSET_SIZE], bit % BITSET_SIZE);
  }

  /** The loop of PMM_malloc over bitset_set. */
  method SetRun(ram: array<Word>, b: nat, pos: nat, n: nat)
    requires InStore(ram[..], b, pos + n)
    modifies ram
    ensures ram[..] == SetRange(old(ram[..]), b, pos, n)
  {
    var i := 0;
    while i < n
      invariant 0 <= i <= n
      invariant ram[..] == SetRange(old(ram[..]), b, pos, i)
    {
      Set(ram, b, pos + i);
      i := i + 1;
    }
  }

  /** The loop of PMM_free over bitset_clear. */
  method ClearRun(ram: array<Word>, b: nat, pos: nat, n: nat)
    modifies ram
    ensures ram[..] == ClearRange(old(ram[..]), b, pos, n)
  {
    var i := 0;
    while i < n
      invariant 0 <= i <= n
      invariant ram[..] == ClearRange(old(ram[..]), b, pos, i)
    {
      Clear(ram, b, pos + i);
      i := i + 1;
    }
  }

  // ----- bitset_find, as written -----

  /** Where the code starts counting for the candidate p = 32i + j: at 32i + 2^j, because
      it adds the mask instead of the index. */
  function Window(p: nat): nat {
    p / BITSET_SIZE * BITSET_SIZE + Pow2(p % BITSET_SIZE)
  }

  lemma WindowInNumbers(i: nat, j: nat)
    requires j < 32
    ensures Window(32 * i + j) == 32 * i + Pow2(j)
  {
    var p := 32 * i + j;
    assert p / BITSET_SIZE == i && p % BITSET_SIZE == j;
  }

  function ClearCount(mem: seq<Word>, b: nat, a: nat, n: nat): (c: nat)
    requires n == 0 || InStore(mem, b, a + n - 1)
    ensures c <= n
  {
    if n == 0 then 0
    else ClearCount(mem, b, a, n - 1) + (if Test(mem, b, a + n - 1) then 0 else 1)
  }

  /** n of the n + 1 bits from a are clear. */
  predicate EnoughClear(mem: seq<Word>, b: nat, a: nat, n: nat)
    requires InStore(mem, b, a + n)
  {
    ClearCount(mem, b, a, n + 1) >= n
  }

  /** The candidates are the bits of the whole words only. */
  function Candidates(total: nat): nat {
    total / BITSET_SIZE * BITSET_SIZE
  }

  datatype Verdict = Pass | GiveUp | Answer

  /** What the search does at candidate p: it passes over a set bit, gives up when the window does
      not fit, answers when n of the n + 1 window bits are clear, and passes on otherwise. */
  function Decide(mem: seq<Word>, b: nat, total: nat, n: nat, p: nat): Verdict
    requires InStore(mem, b, total) && p < Candidates(total)
  {
    if Test(mem, b, p) then Pass
    else if Window(p) + n > total then GiveUp
    else if EnoughClear(mem, b, Window(p), n) then Answer
    else Pass
  }

  predicate GivesUp(mem: seq<Word>, b: nat, total: nat, n: nat, p: nat)
    requires InStore(mem, b, total)
  {
    p < Candidates(total) && Decide(mem, b, total, n, p) == GiveUp
  }

  predicate Accepts(mem: seq<Word>, b: nat, total: nat, n: nat, p: nat)
    requires InStore(mem, b, total)
  {
    p < Candidates(total) && Decide(mem, b, total, n, p) == Answer
  }

  /** The outcome of bitset_find from candidate p on: the first candidate that decides. */
  function FindFrom(mem: seq<Word>, b: nat, total: nat, n: nat, p: nat): Option<nat>
    requires InStore(mem, b, total)
    decreases Candidates(total) - p
  {
    if p >= Candidates(total) then None
    else match Decide(mem, b, total, n, p)
      case GiveUp => None
      case Answer => Some(p)
      case Pass => FindFrom(mem, b, total, n, p + 1)
  }

  function Find(mem: seq<Word>, b: nat, total: nat, n: nat): Option<nat>
    requires InStore(mem, b, total)
  {
    if n == 0 then None else FindFrom(mem, b, total, n, 0)
  }

  lemma {:induction false} FindFromMeaning(mem: seq<Word>, b: nat, total: nat, n: nat, p: nat)
    requires InStore(mem, b, total)
    ensures match FindFrom(mem, b, total, n, p)
      case Some(r) =>
        p <= r && Accepts(mem, b, total, n, r)
        && forall q :: p <= q < r ==> !Accepts(mem, b, total, n, q) && !GivesUp(mem, b, total, n, q)
      case None =>
        forall q :: p <= q && Accepts(mem, b, total, n, q)
          ==> exists g :: p <= g < q && GivesUp(mem, b, total, n, g)
    decreases Candidates(total) - p
  {
    if p < Candidates(total) {
      match Decide(mem, b, total, n, p)
      case GiveUp =>
        assert GivesUp(mem, b, total, n, p);
      case Answer =>
        assert Accepts(mem, b, total, n, p);
      case Pass =>
        FindFromMeaning(mem, b, total, n, p + 1);
        assert !Accepts(mem, b, total, n, p) && !GivesUp(mem, b, total, n, p);
    }
  }

  /** bitset_find returns the first accepted candidate, unless an earlier clear candidate has
      a window that sticks out of the bit array; in particular `pos` is clear and in range. */
  lemma FindMeaning(mem: seq<Word>, b: nat, total: nat, n: nat, p: nat)
    requires InStore(mem, b, total)
    ensures Find(mem, b, total, n) == Some(p) <==>
              n > 0 && Accepts(mem, b, total, n, p)
              && forall q :: 0 <= q < p ==> !Accepts(mem, b, total, n, q) && !GivesUp(mem, b, total, n, q)
    ensures Find(mem, b, total, n) == Some(p) ==> p + n <= total && !Test(mem, b, p)
  {
    if n > 0 {
      FindFromMeaning(mem, b, total, n, 0);
      if Find(mem, b, total, n).Some? {
        var r := Find(mem, b, total, n).value;
        if p != r { assert Accepts(mem, b, total, n, r); }
      }
      WindowAbove(p);
    }
  }

  /** The clear ones among n bits from a. */
  function ClearBits(mem: seq<Word>, b: nat, a: nat, n: nat): set<nat>
    requires n == 0 || InStore(mem, b, a + n - 1)
  {
    set x: nat | x < a + n && Within(x, a, n) && !Test(mem, b, x)
  }

  lemma {:induction false} ClearCountCounts(mem: seq<Word>, b: nat, a: nat, n: nat)
    requires n == 0 || InStore(mem, b, a + n - 1)
    ensures ClearCount(mem, b, a, n) == |ClearBits(mem, b, a, n)|
  {
    if n == 0 {
      assert ClearBits(mem, b, a, n) == {};
    } else {
      ClearCountCounts(mem, b, a, n - 1);
      var before := ClearBits(mem, b, a, n - 1);
      if Test(mem, b, a + n - 1) {
        assert ClearBits(mem, b, a, n) == before;
      } else {
        assert ClearBits(mem, b, a, n) == before + {a + n - 1};
      }
    }
  }

  /** Bit x is digit x % 32 of the word x / 32 places behind the start. */
  lemma TestInNumbers(mem: seq<Word>, b: nat, x: nat)
    requires InStore(mem, b, x)
    ensures b + x / 32 < |mem| && (Test(mem, b, x) <==> mem[b + x / 32] / Pow2(x % 32) % 2 == 1)
  {
    BitInNumbers(mem[b + x / BITSET_SIZE], x % BITSET_SIZE);
  }

  lemma DecideInNumbers(mem: seq<Word>, b: nat, total: nat, n: nat, p: nat)
    requires InStore(mem, b, total)
    ensures Accepts(mem, b, total, n, p) <==>
              p < total / 32 * 32 && !Test(mem, b, p) && Window(p) + n <= total && |ClearBits(mem, b, Window(p), n + 1)| >= n
    ensures GivesUp(mem, b, total, n, p) <==> p < total / 32 * 32 && !Test(mem, b, p) && Window(p) + n > total
  {
    if Window(p) + n <= total { ClearCountCounts(mem, b, Window(p), n + 1); }
  }

  /** bitset_find in numbers: the answer is the first clear bit p of a whole word such that, of the
      n + 1 bits from Window(p) on, the first n of which lie below the total, n are clear; and every
      clear bit before p has its n bits below the total too, but fewer of the n + 1 clear. */
  lemma FindInNumbers(mem: seq<Word>, b: nat, total: nat, n: nat, p: nat)
    requires InStore(mem, b, total)
    ensures Find(mem, b, total, n) == Some(p) <==>
              && n > 0 && p < total / 32 * 32 && !Test(mem, b, p)
              && Window(p) + n <= total && |ClearBits(mem, b, Window(p), n + 1)| >= n
              && forall q: nat :: q < p && !Test(mem, b, q) ==>
                   Window(q) + n <= total && |ClearBits(mem, b, Window(q), n + 1)| < n
  {
    FindMeaning(mem, b, total, n, p);
    DecideInNumbers(mem, b, total, n, p);
    forall q: nat | q < p && p < total / 32 * 32
      ensures InStore(mem, b, q)
      ensures !Accepts(mem, b, total, n, q) && !GivesUp(mem, b, total, n, q) <==>
                Test(mem, b, q) || (Window(q) + n <= total && |ClearBits(mem, b, Window(q), n + 1)| < n)
    {
      DecideInNumbers(mem, b, total, n, q);
    }
  }

  lemma WindowAbove(p: nat)
    ensures p < Window(p)
  {
  }

  lemma {:induction false} ClearCountGrows(mem: seq<Word>, b: nat, a: nat, n: nat, k: nat)
    requires k <= n && (n == 0 || InStore(mem, b, a + n - 1))
    ensures ClearCount(mem, b, a, k) <= ClearCount(mem, b, a, n) <= ClearCount(mem, b, a, k) + (n - k)
  {
    if k < n { ClearCountGrows(mem, b, a, n - 1, k); }
  }

  /** Counting may stop as soon as n clear bits were seen. */
  lemma EnoughSoFar(mem: seq<Word>, b: nat, a: nat, n: nat, k: nat)
    requires InStore(mem, b, a + n) && k <= n + 1 && (k == 0 || InStore(mem, b, a + k - 1))
    requires ClearCount(mem, b, a, k) >= n
    ensures EnoughClear(mem, b, a, n)
  {
    ClearCountGrows(mem, b, a, n + 1, k);
  }

  /** One step of the count. */
  method CountBit(ram: array<Word>, b: nat, a: nat, n: nat, k: nat, free: nat) returns (more: nat)
    requires k <= n && InStore(ram[..], b, a + n) && (k == 0 || InStore(ram[..], b, a + k - 1))
    requires free == ClearCount(ram[..], b, a, k)
    ensures InStore(ram[..], b, a + k) && more == ClearCount(ram[..], b, a, k + 1)
  {
    assert InStore(ram[..], b, a + k);
    var t := TestBit(ram, b, a + k);
    more := if t then free else free + 1;
  }

  /** The innermost loop of bitset_find: does the window of size + 1 bits hold `size` clear ones? */
  method WindowHasFree(ram: array<Word>, b: nat, startPos: nat, size: nat) returns (enough: bool)
    requires size > 0 && InStore(ram[..], b, startPos + size)
    ensures enough <==> EnoughClear(ram[..], b, startPos, size)
  {
    ghost var mem := ram[..];
    var free := 0;
    var k := 0;
    while k <= size
      invariant 0 <= k <= size + 1 && (k == 0 || InStore(mem, b, startPos + k - 1))
      invariant free == ClearCount(mem, b, startPos, k) < size
    {
      free := CountBit(ram, b, startPos, size, k, free);
      if free == size {
        EnoughSoFar(mem, b, startPos, size, k + 1);
        return true;
      }
      k := k + 1;
    }
    enough := false;
  }

  /** The body of the bit loop: bit j of word i is the candidate 32i + j. */
  method TryCandidate(ram: array<Word>, b: nat, bitsetSize: nat, size: nat, i: nat, j: nat) returns (v: Verdict)
    requires size > 0 && InStore(ram[..], b, bitsetSize) && i < bitsetSize / BITSET_SIZE && j < BITSET_SIZE
    ensures v == Decide(ram[..], b, bitsetSize, size, i * BITSET_SIZE + j)
  {
    ghost var p := i * BITSET_SIZE + j;
    assert p / BITSET_SIZE == i && p % BITSET_SIZE == j;
    var bit := Pow2(j);
    MaskTest(ram[b + i], j);
    if BitAnd(ram[b + i], bit) != 0 {
      return Pass;
    }
    var startPos := i * BITSET_SIZE + bit;
    if startPos + size > bitsetSize {
      return GiveUp;
    }
    var enough := WindowHasFree(ram, b, startPos, size);
    v := if enough then Answer else Pass;
  }

  /** One word of bitset_find: the answer, or none when all 32 candidates were passed over. */
  method ScanWord(ram: array<Word>, b: nat, bitsetSize: nat, size: nat, i: nat) returns (decided: bool, r: Option<nat>)
    requires size > 0 && InStore(ram[..], b, bitsetSize) && i < bitsetSize / BITSET_SIZE
    ensures FindFrom(ram[..], b, bitsetSize, size, i * BITSET_SIZE)
            == if decided then r else FindFrom(ram[..], b, bitsetSize, size, (i + 1) * BITSET_SIZE)
  {
    ghost var mem := ram[..];
    var j := 0;
    while j < BITSET_SIZE
      invariant 0 <= j <= BITSET_SIZE
      invariant FindFrom(mem, b, bitsetSize, size, i * BITSET_SIZE)
                == FindFrom(mem, b, bitsetSize, size, i * BITSET_SIZE + j)
    {
      var v := TryCandidate(ram, b, bitsetSize, size, i, j);
      if v != Pass {
        return true, if v == Answer then Some(i * BITSET_SIZE + j) else None;
      }
      j := j + 1;
    }
    assert i * BITSET_SIZE + j == (i + 1) * BITSET_SIZE;
    decided, r := false, None;
  }

  /** bitset_find on the memory: words, bits of a word, positions of the window. */
  method FindAsWritten(ram: array<Word>, b: nat, bitsetSize: nat, size: nat) returns (found: bool, pos: nat)
    requires bitsetSize <= MAX_FRAMES && size <= MAX_FRAMES
    requires InStore(ram[..], b, bitsetSize)
    ensures (if found then Some(pos) else None) == Find(ram[..], b, bitsetSize, size)
  {
    found, pos := false, 0;
    if size == 0 { return; }
    var bss := bitsetSize / BITSET_SIZE;
    var i := 0;
    while i < bss
      invariant 0 <= i <= bss
      invariant Find(ram[..], b, bitsetSize, size) == FindFrom(ram[..], b, bitsetSize, size, i * BITSET_SIZE)
    {
      var decided, r := ScanWord(ram, b, bitsetSize, size, i);
      if decided {
        return r.Some?, if r.Some? then r.value else 0;
      }
      i := i + 1;
    }
  }

  // ----- what the search is good for -----

  /** The n bits from p are all clear: what a caller of the allocator takes the answer to mean. */
  predicate BlockClear(mem: seq<Word>, b: nat, p: nat, n: nat)
    requires InStore(mem, b, p + n)
  {
    forall x: nat :: x < p + n && Within(x, p, n) ==> !Test(mem, b, x)
  }

  /** The requests for which a successful search always yields a clear block. */
  predicate SafeRequest(total: nat, n: nat) {
    n <= 1 || n >= total || total < BITSET_SIZE
  }

  lemma SafeRequestSound(mem: seq<Word>, b: nat, total: nat, n: nat)
    requires InStore(mem, b, total) && SafeRequest(total, n)
    ensures match Find(mem, b, total, n) case None => true
            case Some(p) => p + n <= total && BlockClear(mem, b, p, n)
  {
    match Find(mem, b, total, n)
    case None =>
    case Some(p) =>
      FindMeaning(mem, b, total, n, p);
      assert p + n <= total;
  }

  lemma {:induction false} AllClearCount(mem: seq<Word>, b: nat, a: nat, n: nat)
    requires n == 0 || InStore(mem, b, a + n - 1)
    requires forall y: nat :: a <= y < a + n ==> InStore(mem, b, y) && !Test(mem, b, y)
    ensures ClearCount(mem, b, a, n) == n
  {
    if n > 0 { AllClearCount(mem, b, a, n - 1); }
  }

  /** Of a run of n bits whose first one alone is set, n - 1 are clear; with a second one set, fewer. */
  lemma {:induction false} CountAfterFirst(mem: seq<Word>, b: nat, a: nat, n: nat)
    requires n > 0 && InStore(mem, b, a + n - 1)
    requires forall y: nat :: a <= y < a + n ==> InStore(mem, b, y) && (Test(mem, b, y) <==> y == a)
    ensures ClearCount(mem, b, a, n) == n - 1
  {
    if n > 1 { CountAfterFirst(mem, b, a, n - 1); }
  }

  lemma {:induction false} CountWithTwoSet(mem: seq<Word>, b: nat, a: nat, n: nat, x: nat, y: nat)
    requires a <= x < y < a + n && InStore(mem, b, a + n - 1)
    requires InStore(mem, b, x) && InStore(mem, b, y) && Test(mem, b, x) && Test(mem, b, y)
    ensures ClearCount(mem, b, a, n) <= n - 2
  {
    ClearCountGrows(mem, b, a, n, y + 1 - a);
    ClearCountGrows(mem, b, a, y - a, x + 1 - a);
    assert ClearCount(mem, b, a, y + 1 - a) == ClearCount(mem, b, a, y - a);
    assert ClearCount(mem, b, a, x + 1 - a) == ClearCount(mem, b, a, x - a);
  }

  /** A memory of the given size whose bit array, up to the one bit that can be read behind it, has
      exactly the bits of s set. */
  lemma MemoryWith(words: nat, b: nat, total: nat, s: set<nat>) returns (mem: seq<Word>)
    requires b + total / BITSET_SIZE < words
    ensures |mem| == words && InStore(mem, b, total)
    ensures forall y: nat :: y <= total ==> (Test(mem, b, y) <==> y in s)
  {
    mem := seq(words, _ => 0);
    var x := 0;
    forall y: nat | y <= total ensures !Test(mem, b, y) { ZeroBit(y % BITSET_SIZE); }
    while x <= total
      invariant 0 <= x <= total + 1 && |mem| == words
      invariant forall y: nat :: y <= total ==> InStore(mem, b, y) && (Test(mem, b, y) <==> y in s && y < x)
    {
      if x in s {
        forall y: nat | y <= total ensures Test(SetAt(mem, b, x), b, y) <==> y == x || Test(mem, b, y) {
          SetAtInserts(mem, b, x, y);
        }
        mem := SetAt(mem, b, x);
      }
      x := x + 1;
    }
  }

  /** A successful answer is a clear block. */
  predicate AnswerClear(mem: seq<Word>, b: nat, total: nat, n: nat)
    requires InStore(mem, b, total)
  {
    match Find(mem, b, total, n)
    case None => true
    case Some(p) => p + n <= total && BlockClear(mem, b, p, n)
  }

  /** When the first clear candidate p is counted from p + 1 on, and p + 1 is the one bit set there, the
      n clear bits behind it make up for it, and the block answered has a used frame in it. */
  lemma OneBitFoolsSearch(mem: seq<Word>, b: nat, total: nat, n: nat, p: nat)
    requires InStore(mem, b, total) && n >= 2 && p + 1 + n <= total && p < Candidates(total) && Window(p) == p + 1
    requires forall y: nat :: y < p ==> InStore(mem, b, y) && Test(mem, b, y)
    requires forall y: nat :: p <= y <= p + 1 + n ==> InStore(mem, b, y) && (Test(mem, b, y) <==> y == p + 1)
    ensures Find(mem, b, total, n) == Some(p) && Test(mem, b, p + 1) && !BlockClear(mem, b, p, n)
  {
    CountAfterFirst(mem, b, p + 1, n + 1);
    assert Accepts(mem, b, total, n, p);
    FindMeaning(mem, b, total, n, p);
    assert Within(p + 1, p, n);
  }

  /** For every other request there is a bitmap that makes the code hand out a used frame. */
  lemma UnsafeRequestWitness(b: nat, total: nat, n: nat) returns (mem: seq<Word>)
    requires !SafeRequest(total, n)
    ensures InStore(mem, b, total)
    ensures Find(mem, b, total, n) == Some(0) && Test(mem, b, 1) && !BlockClear(mem, b, 0, n)
  {
    mem := MemoryWith(b + total / BITSET_SIZE + 1, b, total, {1});
    assert Window(0) == 1;
    OneBitFoolsSearch(mem, b, total, n, 0);
  }

  /** Exactly which requests the search as written answers soundly, whatever the bitmap holds. */
  lemma FindSoundExactlyWhen(b: nat, total: nat, n: nat)
    ensures (forall mem: seq<Word> :: InStore(mem, b, total) ==> AnswerClear(mem, b, total, n))
            <==> SafeRequest(total, n)
  {
    if SafeRequest(total, n) {
      forall mem: seq<Word> | InStore(mem, b, total) ensures AnswerClear(mem, b, total, n) {
        SafeRequestSound(mem, b, total, n);
      }
    } else {
      var mem := UnsafeRequestWitness(b, total, n);
      assert !AnswerClear(mem, b, total, n);
    }
  }

  /** Somewhere in the bit array n consecutive bits are clear. */
  predicate HasRoom(mem: seq<Word>, b: nat, total: nat, n: nat)
    requires InStore(mem, b, total)
  {
    exists p: nat :: p + n <= total && BlockClear(mem, b, p, n)
  }

  /** A memory whose bit array has exactly the bits [p, p + n) clear. */
  lemma MemoryWithHole(b: nat, total: nat, p: nat, n: nat) returns (mem: seq<Word>)
    requires p + n <= total
    ensures InStore(mem, b, total)
    ensures forall y: nat :: y < total ==> InStore(mem, b, y) && (Test(mem, b, y) <==> !(p <= y < p + n))
  {
    mem := MemoryWith(b + total / BITSET_SIZE + 1, b, total, Block(0, total) - Block(p, n));
  }

  /** A bitmap with one free run of exactly n frames that the search does not find. */
  lemma MissedRunWitness(b: nat, total: nat, n: nat) returns (mem: seq<Word>)
    requires 1 <= n <= total <= MAX_FRAMES
    ensures InStore(mem, b, total) && HasRoom(mem, b, total, n) && Find(mem, b, total, n) == None
  {
    var p := if total - n < 31 then total - n else 31;
    mem := MemoryWithHole(b, total, p, n);
    assert BlockClear(mem, b, p, n);
    if total >= BITSET_SIZE {
      assert Window(p) + n > total by {
        if p == 31 { assert Pow2(31) > MAX_FRAMES by { Pow2Of32(); assert Pow2(32) == 2 * Pow2(31); } }
      }
      assert GivesUp(mem, b, total, n, p);
      if Find(mem, b, total, n).Some? {
        var r := Find(mem, b, total, n).value;
        FindMeaning(mem, b, total, n, r);
      }
    }
  }

  /** Completeness never holds: for every request that can fit at all, some bitmap with room for
      it makes the search fail. */
  lemma FindCompleteExactlyWhen(b: nat, total: nat, n: nat)
    requires 1 <= n && total <= MAX_FRAMES
    ensures (forall mem: seq<Word> :: InStore(mem, b, total) && HasRoom(mem, b, total, n)
              ==> Find(mem, b, total, n).Some?)
            <==> n > total
  {
    if n <= total {
      var mem := MissedRunWitness(b, total, n);
      assert HasRoom(mem, b, total, n);
    }
  }

  /** Everything below p used, everything from p on free: the search answers p, and the block is clear,
      exactly when its displaced window still fits. */
  lemma FindAboveUsedPrefix(mem: seq<Word>, b: nat, total: nat, n: nat, p: nat)
    requires InStore(mem, b, total) && n >= 1
    requires forall y: nat :: y < total ==> (Test(mem, b, y) <==> y < p)
    ensures Find(mem, b, total, n) ==
            if p < Candidates(total) && Window(p) + n <= total then Some(p) else None
    ensures Find(mem, b, total, n) == Some(p) ==> BlockClear(mem, b, p, n)
  {
    WindowAbove(p);
    if p < Candidates(total) && Window(p) + n <= total {
      forall y: nat | Window(p) <= y < Window(p) + n ensures InStore(mem, b, y) && !Test(mem, b, y) { }
      AllClearCount(mem, b, Window(p), n);
      ClearCountGrows(mem, b, Window(p), n + 1, n);
      assert Accepts(mem, b, total, n, p);
      FindMeaning(mem, b, total, n, p);
    } else {
      if p < Candidates(total) { assert GivesUp(mem, b, total, n, p); }
      forall r: nat | Accepts(mem, b, total, n, r)
        ensures p < r && GivesUp(mem, b, total, n, p)
      {
        assert r < total && !Test(mem, b, r);
      }
      if Find(mem, b, total, n).Some? {
        FindMeaning(mem, b, total, n, Find(mem, b, total, n).value);
      }
    }
  }

  /** A first free frame numbered 20 or more modulo 32 ends every search: its window lies beyond any
      32-bit memory, whatever is free above it. */
  lemma HighBitStopsSearch(mem: seq<Word>, b: nat, total: nat, n: nat, p: nat)
    requires InStore(mem, b, total) && total <= MAX_FRAMES && n >= 1
    requires p < Candidates(total) && !Test(mem, b, p) && p % BITSET_SIZE >= 20
    requires forall y: nat :: y < p ==> InStore(mem, b, y) && Test(mem, b, y)
    ensures Find(mem, b, total, n) == None
  {
    Pow2Of32();
    assert Pow2(20) == MAX_FRAMES by { assert Pow2(20) == 16 * Pow2(16); }
    if p % BITSET_SIZE > 20 { Pow2Monotone(20, p % BITSET_SIZE); }
    assert GivesUp(mem, b, total, n, p);
    forall r: nat | Accepts(mem, b, total, n, r) ensures p < r { }
    if Find(mem, b, total, n).Some? {
      FindMeaning(mem, b, total, n, Find(mem, b, total, n).value);
    }
  }
}
