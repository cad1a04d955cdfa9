/** BIOS_bootloader/src/filesystems/FAT12.inc: 12-bit entries and cluster chains. */
module Fat12 {

  import opened Sets
  import opened Words

  const MAX_CLUSTERS: nat := 2880
  const FAT_BYTES: nat := 9 * 512

  function Word16(mem: seq<Byte>, a: nat): (w: nat)
    requires a + 1 < |mem|
    ensures w < 0x1_0000
  {
    var low: nat, high: nat := mem[a], mem[a + 1];
    low + 0x100 * high
  }

  /** Entry N: the word at byte N + N/2, its upper 12 bits for odd N, its lower 12 for even N. */
  function Entry(fat: seq<Byte>, n: nat): (e: nat)
    requires n + n / 2 + 1 < |fat|
    ensures e < 0x1000
  {
    if n % 2 == 1 then Word16(fat, n + n / 2) / 0x10 else Word16(fat, n + n / 2) % 0x1000
  }

  type Entry12 = e: nat | e < 0x1000

  /** The on-disk layout: two entries in three bytes; a last single entry takes two bytes. */
  function Pack(es: seq<Entry12>): seq<Byte> {
    if |es| == 0 then []
    else if |es| == 1 then [es[0] % 0x100, es[0] / 0x100]
    else [es[0] % 0x100, es[0] / 0x100 + es[1] % 0x10 * 0x10, es[1] / 0x10] + Pack(es[2..])
  }

  /** Decoding inverts packing, for every table of entries. */
  lemma {:induction false} EntryOfPack(es: seq<Entry12>, n: nat)
    requires n < |es|
    ensures n + n / 2 + 1 < |Pack(es)| && Entry(Pack(es), n) == es[n]
  {
    if |es| > 1 && n > 1 {
      EntryOfPack(es[2..], n - 2);
      ShiftEntry(Pack(es), Pack(es[2..]), n);
    }
  }

  lemma ShiftEntry(fat: seq<Byte>, rest: seq<Byte>, n: nat)
    requires n >= 2 && |fat| == |rest| + 3 && fat[3..] == rest
    requires n - 2 + (n - 2) / 2 + 1 < |rest|
    ensures Entry(fat, n) == Entry(rest, n - 2)
  {
    var a := n - 2 + (n - 2) / 2;
    assert n + n / 2 == a + 3;
    assert fat[a + 3] == rest[a] && fat[a + 4] == rest[a + 1];
  }

  /** Every entry the loader can ask for is read from inside the nine loaded sectors. */
  lemma EntryInsideFat(n: nat)
    requires n < MAX_CLUSTERS
    ensures n + n / 2 + 1 < FAT_BYTES
  {
  }

  // ----- chains -----

  function Next(fat: seq<Byte>, c: nat): nat
    requires |fat| == FAT_BYTES && c < MAX_CLUSTERS
  {
    Entry(fat, c)
  }

  /** Successive links, all of them cluster numbers. */
  ghost predicate IsPath(fat: seq<Byte>, p: seq<nat>)
    requires |fat| == FAT_BYTES
  {
    && (forall i :: 0 <= i < |p| ==> p[i] < MAX_CLUSTERS)
    && (forall i :: 0 <= i < |p| - 1 ==> Next(fat, p[i]) == p[i + 1])
  }

  /** A path whose last link leaves the range of cluster numbers: what the loader takes for a file. */
  ghost predicate IsChain(fat: seq<Byte>, cs: seq<nat>)
    requires |fat| == FAT_BYTES
  {
    |cs| > 0 && IsPath(fat, cs) && Next(fat, cs[|cs| - 1]) >= MAX_CLUSTERS
  }

  lemma EntryOfPrefix(fat: seq<Byte>, es: seq<Entry12>, n: nat)
    requires n < |es| && Pack(es) <= fat
    ensures n + n / 2 + 1 < |fat| && Entry(fat, n) == es[n]
  {
    EntryOfPack(es, n);
    var a := n + n / 2;
    assert fat[a] == Pack(es)[a] && fat[a + 1] == Pack(es)[a + 1];
    assert Word16(fat, a) == Word16(Pack(es), a);
  }

  /** A link below 2880, the number of sectors of the disk, is followed; any other ends the file. */
  lemma ChainInNumbers(fat: seq<Byte>, cs: seq<nat>)
    requires |fat| == 4608
    ensures IsChain(fat, cs) <==>
              && |cs| > 0 && (forall i :: 0 <= i < |cs| ==> cs[i] < 2880)
              && (forall i :: 0 <= i < |cs| - 1 ==> Entry(fat, cs[i]) == cs[i + 1])
              && Entry(fat, cs[|cs| - 1]) >= 2880
  {
  }

  /** A file on a disk: clusters that each link to the next in the packed table, and an end mark in the
      last.  The loader's walk from the first cluster gives just these, no fewer and no others. */
  lemma FileOnDiskIsChain(es: seq<Entry12>, fat: seq<Byte>, cs: seq<nat>)
    requires |fat| == 4608 && Pack(es) <= fat && |cs| > 0
    requires forall i :: 0 <= i < |cs| ==> 2 <= cs[i] <= 2846 && cs[i] < |es|
    requires forall i :: 0 <= i < |cs| - 1 ==> es[cs[i]] == cs[i + 1]
    requires 0xFF8 <= es[cs[|cs| - 1]] <= 0xFFF
    ensures IsChain(fat, cs)
    ensures forall ds :: IsChain(fat, ds) && ds[0] == cs[0] ==> ds == cs
  {
    forall i | 0 <= i < |cs| ensures Entry(fat, cs[i]) == es[cs[i]] { EntryOfPrefix(fat, es, cs[i]); }
    forall ds | IsChain(fat, ds) && ds[0] == cs[0] ensures ds == cs { ChainIsUnique(fat, cs, ds); }
  }

  ghost predicate Distinct(p: seq<nat>) {
    forall i, j :: 0 <= i < j < |p| ==> p[i] != p[j]
  }

  ghost predicate Acyclic(fat: seq<Byte>, start: nat)
    requires |fat| == FAT_BYTES
  {
    forall p :: IsPath(fat, p) && |p| > 0 && p[0] == start ==> Distinct(p)
  }

  /** Equal clusters have equal successors all along a path. */
  lemma {:induction false} SameTail(fat: seq<Byte>, p: seq<nat>, i: nat, j: nat, k: nat)
    requires |fat| == FAT_BYTES && IsPath(fat, p) && i < j && j + k < |p| && p[i] == p[j]
    ensures p[i + k] == p[j + k]
  {
    if k > 0 {
      SameTail(fat, p, i, j, k - 1);
      assert Next(fat, p[i + k - 1]) == p[i + k - 1 + 1];
      assert Next(fat, p[j + k - 1]) == p[j + k - 1 + 1];
    }
  }

  lemma ChainIsDistinct(fat: seq<Byte>, cs: seq<nat>)
    requires |fat| == FAT_BYTES && IsChain(fat, cs)
    ensures Distinct(cs)
  {
    forall i, j | 0 <= i < j < |cs| ensures cs[i] != cs[j] {
      var k := |cs| - 1 - j;
      assert Next(fat, cs[i + k]) == cs[i + k + 1] < MAX_CLUSTERS;
      if cs[i] == cs[j] { SameTail(fat, cs, i, j, k); }
    }
  }

  /** A path from the start of a chain runs along the chain. */
  lemma {:induction false} PathAlongChain(fat: seq<Byte>, cs: seq<nat>, p: seq<nat>, i: nat)
    requires |fat| == FAT_BYTES && IsChain(fat, cs) && IsPath(fat, p) && i < |p| && p[0] == cs[0]
    ensures i < |cs| && p[i] == cs[i]
  {
    if i > 0 {
      PathAlongChain(fat, cs, p, i - 1);
      assert Next(fat, p[i - 1]) == p[i - 1 + 1];
      if i == |cs| {
        assert false;
      } else {
        assert Next(fat, cs[i - 1]) == cs[i - 1 + 1];
      }
    }
  }

  /** Pigeonhole: different cluster numbers are at most MAX_CLUSTERS many. */
  lemma {:induction false} DistinctIsShort(p: seq<nat>, bound: nat)
    requires Distinct(p) && forall i :: 0 <= i < |p| ==> p[i] < bound
    ensures |p| <= bound
  {
    var s := set i | 0 <= i < |p| :: p[i];
    SetOfDistinct(p);
    BlockSize(0, bound);
    assert s <= Block(0, bound);
    SubsetSize(s, Block(0, bound));
  }

  lemma {:induction false} SetOfDistinct(p: seq<nat>)
    requires Distinct(p)
    ensures |set i | 0 <= i < |p| :: p[i]| == |p|
  {
    var s := set i | 0 <= i < |p| :: p[i];
    if |p| == 0 {
      assert s == {};
    } else {
      var q := p[..|p| - 1];
      SetOfDistinct(q);
      var t := set i | 0 <= i < |q| :: q[i];
      assert s == t + {p[|p| - 1]};
      assert p[|p| - 1] !in t;
    }
  }

  /** On an acyclic table every path can be followed to the end of a chain. */
  lemma {:induction false} FollowToEnd(fat: seq<Byte>, p: seq<nat>) returns (cs: seq<nat>)
    requires |fat| == FAT_BYTES && |p| > 0 && IsPath(fat, p) && Acyclic(fat, p[0])
    ensures IsChain(fat, cs) && cs[0] == p[0]
    decreases MAX_CLUSTERS - |p|
  {
    var next := Next(fat, p[|p| - 1]);
    if next >= MAX_CLUSTERS {
      cs := p;
    } else {
      var q := p + [next];
      assert IsPath(fat, q);
      DistinctIsShort(q, MAX_CLUSTERS);
      cs := FollowToEnd(fat, q);
    }
  }

  /** Walking the table from `start` ends exactly when no cluster repeats. */
  lemma ChainExistsExactlyWhenAcyclic(fat: seq<Byte>, start: nat)
    requires |fat| == FAT_BYTES && start < MAX_CLUSTERS
    ensures (exists cs :: IsChain(fat, cs) && cs[0] == start) <==> Acyclic(fat, start)
  {
    if Acyclic(fat, start) {
      assert IsPath(fat, [start]);
      var cs := FollowToEnd(fat, [start]);
    }
    if exists cs :: IsChain(fat, cs) && cs[0] == start {
      var cs :| IsChain(fat, cs) && cs[0] == start;
      ChainIsDistinct(fat, cs);
      forall p | IsPath(fat, p) && |p| > 0 && p[0] == start ensures Distinct(p) {
        forall i, j | 0 <= i < j < |p| ensures p[i] != p[j] {
          PathAlongChain(fat, cs, p, i);
          PathAlongChain(fat, cs, p, j);
        }
      }
    }
  }

  /** The chain from a start cluster is unique, and has at most MAX_CLUSTERS clusters. */
  lemma ChainIsUnique(fat: seq<Byte>, cs: seq<nat>, ds: seq<nat>)
    requires |fat| == FAT_BYTES && IsChain(fat, cs) && IsChain(fat, ds) && cs[0] == ds[0]
    ensures cs == ds && |cs| <= MAX_CLUSTERS
  {
    PathAlongChain(fat, cs, ds, |ds| - 1);
    PathAlongChain(fat, ds, cs, |cs| - 1);
    forall i | 0 <= i < |cs| ensures cs[i] == ds[i] {
      PathAlongChain(fat, ds, cs, i);
    }
    ChainIsDistinct(fat, cs);
    DistinctIsShort(cs, MAX_CLUSTERS);
  }
}
