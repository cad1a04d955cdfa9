/** LoadFile of FAT12.inc and the relocation at the end of boot2.asm, on the memory they run in. */
module Loader {
  import opened Fat12
  import opened Words
  import Chs

  const FAT_SEG: nat := KERNEL_SEG      // the FAT is loaded here, and the file over it
  const FAT_BUFFER_SEG: nat := 0x600    // the saved cluster list
  const FAT_SEC_OFFSET: nat := 4        // the reserved sectors
  const FAT_TOTAL_SECTORS: nat := 9
  const DATA_SEC_OFFSET: nat := 36      // 4 reserved + 2 * 9 FAT + 14 root directory sectors

  type Sector = s: seq<Byte> | |s| == 512 witness seq(512, _ => 0)

  /** INT 13h, reading one sector: drive and address to the sector, or an error. */
  type Bios = (nat, Chs.Address) -> Option<Sector>

  /** The FAT as it lies in memory. */
  function FatIn(mem: seq<Byte>): seq<Byte>
    requires |mem| >= FAT_SEG + FAT_BYTES
  {
    mem[FAT_SEG..FAT_SEG + FAT_BYTES]
  }

  /** The cluster list saved at `di`. */
  predicate ListAt(mem: seq<Byte>, di: nat, cs: seq<nat>) {
    di + 2 * |cs| <= |mem| && forall i :: 0 <= i < |cs| ==> Word16(mem, di + 2 * i) == cs[i]
  }

  /** Nothing outside [lo, hi) differs. */
  predicate SameOutside(m1: seq<Byte>, m2: seq<Byte>, lo: nat, hi: nat) {
    |m1| == |m2| && forall a :: 0 <= a < |m1| && (a < lo || hi <= a) ==> m1[a] == m2[a]
  }

  method StoreWord(mem: array<Byte>, a: nat, w: nat)
    requires a + 1 < mem.Length && w < 0x1_0000
    modifies mem
    ensures Word16(mem[..], a) == w && SameOutside(mem[..], old(mem[..]), a, a + 2)
  {
    mem[a] := w % 0x100;
    mem[a + 1] := w / 0x100;
  }

  // ----- reading sectors -----

  method StoreSector(mem: array<Byte>, bx: nat, s: Sector)
    requires bx + 512 <= mem.Length
    modifies mem
    ensures mem[bx..bx + 512] == s && SameOutside(mem[..], old(mem[..]), bx, bx + 512)
  {
    var i := 0;
    while i < 512
      invariant 0 <= i <= 512
      invariant forall k :: 0 <= k < i ==> mem[bx + k] == s[k]
      invariant SameOutside(mem[..], old(mem[..]), bx, bx + i)
    {
      mem[bx + i] := s[i];
      i := i + 1;
    }
  }

  /** The sector i places further on in the track. */
  function TrackSector(bios: Bios, drive: nat, a: Chs.Address, i: nat): Option<Sector> {
    bios(drive, Chs.Address(a.cylinder, a.head, a.sector + i))
  }

  predicate TrackReadable(bios: Bios, drive: nat, a: Chs.Address, count: nat) {
    forall i :: 0 <= i < count ==> TrackSector(bios, drive, a, i).Some?
  }

  /** Consecutive sectors of a track. */
  function TrackContents(bios: Bios, drive: nat, a: Chs.Address, count: nat): (r: seq<Byte>)
    requires TrackReadable(bios, drive, a, count)
    ensures |r| == 512 * count
  {
    if count == 0 then []
    else TrackContents(bios, drive, a, count - 1) + TrackSector(bios, drive, a, count - 1).value
  }

  /** DriveReadSectors: so many sectors from the address on; an error stops the boot. */
  method DriveReadSectors(mem: array<Byte>, bios: Bios, drive: nat, a: Chs.Address, count: nat, bx: nat)
    returns (ok: bool)
    requires bx + 512 * count <= mem.Length
    modifies mem
    ensures ok <==> TrackReadable(bios, drive, a, count)
    ensures ok ==> mem[bx..bx + 512 * count] == TrackContents(bios, drive, a, count)
    ensures SameOutside(mem[..], old(mem[..]), bx, bx + 512 * count)
  {
    var i := 0;
    ok := true;
    while i < count
      invariant 0 <= i <= count && TrackReadable(bios, drive, a, i)
      invariant mem[bx..bx + 512 * i] == TrackContents(bios, drive, a, i)
      invariant SameOutside(mem[..], old(mem[..]), bx, bx + 512 * i)
    {
      var sector := TrackSector(bios, drive, a, i);
      if sector.None? {
        return false;
      }
      ghost var before := mem[..];
      StoreSector(mem, bx + 512 * i, sector.value);
      SectorStored(before, mem[..], bx, 512 * i, sector.value);
      i := i + 1;
    }
  }

  lemma SectorStored(m1: seq<Byte>, m2: seq<Byte>, bx: nat, done: nat, s: Sector)
    requires bx + done + 512 <= |m1| && SameOutside(m2, m1, bx + done, bx + done + 512)
    requires m2[bx + done..bx + done + 512] == s
    ensures m2[bx..bx + done + 512] == m1[bx..bx + done] + s
  {
    assert m2[bx..bx + done + 512] == m2[bx..bx + done] + m2[bx + done..bx + done + 512];
    assert m2[bx..bx + done] == m1[bx..bx + done];
  }

  /** LoadFAT: the first copy of the table, sectors 5 to 13 of the first track. */
  method LoadFat(mem: array<Byte>, bios: Bios) returns (ok: bool)
    requires mem.Length >= 0x1_0000
    modifies mem
    ensures ok <==> TrackReadable(bios, 0, Chs.Address(0, 0, 5), 9)
    ensures ok ==> FatIn(mem[..]) == TrackContents(bios, 0, Chs.Address(0, 0, 5), 9)
    ensures SameOutside(mem[..], old(mem[..]), FAT_SEG, FAT_SEG + FAT_BYTES)
  {
    var ch, cl, dh, dl := Chs.LbaToChs(FAT_SEC_OFFSET);
    ok := DriveReadSectors(mem, bios, dl, Chs.Address(ch, dh, cl), FAT_TOTAL_SECTORS, FAT_SEG);
  }

  // ----- following the table -----

  /** Entry read through memory is the entry of the FAT. */
  lemma EntryInMemory(mem: seq<Byte>, n: nat)
    requires |mem| >= FAT_SEG + FAT_BYTES && n < MAX_CLUSTERS
    ensures Word16(mem, FAT_SEG + n + n / 2) == Word16(FatIn(mem), n + n / 2)
  {
    assert FatIn(mem)[n + n / 2] == mem[FAT_SEG + n + n / 2];
    assert FatIn(mem)[n + n / 2 + 1] == mem[FAT_SEG + n + n / 2 + 1];
  }

  /** The decoding in the loop body: entry BX of the FAT, by parity of BX. */
  method FollowLink(mem: array<Byte>, bx: nat) returns (ax: nat)
    requires mem.Length >= 0x1_0000 && bx < MAX_CLUSTERS
    ensures ax == Next(FatIn(mem[..]), bx)
  {
    EntryInMemory(mem[..], bx);
    var si := FAT_SEG + bx + bx / 2;
    ax := Word16(mem[..], si);              // lodsw
    if bx % 2 == 1 {
      ax := ax / 0x10;
    } else {
      ax := ax % 0x1000;
    }
  }

  lemma FatUntouched(m1: seq<Byte>, m2: seq<Byte>, lo: nat, hi: nat)
    requires |m1| >= 0x1_0000 && SameOutside(m2, m1, lo, hi) && hi <= FAT_SEG
    ensures FatIn(m2) == FatIn(m1)
  {
  }

  lemma LinkAlongChain(fat: seq<Byte>, cs: seq<nat>, k: nat)
    requires |fat| == FAT_BYTES && IsChain(fat, cs) && k < |cs|
    ensures cs[k] < MAX_CLUSTERS
    ensures if k + 1 < |cs| then Next(fat, cs[k]) == cs[k + 1] < MAX_CLUSTERS else Next(fat, cs[k]) >= MAX_CLUSTERS
  {
  }

  /** First loop of LoadFile: store AX, follow the link, until it is no cluster number.  For a chain
      whose saved list ends below the FAT, it stores exactly the chain and counts it in CX. */
  method ParseFat(mem: array<Byte>, numCluster: nat, buffer: nat, ghost cs: seq<nat>) returns (cx: nat)
    requires mem.Length >= 0x1_0000
    requires IsChain(FatIn(mem[..]), cs) && cs[0] == numCluster
    requires buffer + 2 * |cs| <= FAT_SEG
    modifies mem
    ensures cx == |cs|
    ensures ListAt(mem[..], buffer, cs) && SameOutside(mem[..], old(mem[..]), buffer, buffer + 2 * |cs|)
  {
    ghost var fat := FatIn(mem[..]);
    var ax, di := numCluster, buffer;
    cx := 0;
    var parsed := false;
    while !parsed
      invariant 0 <= cx <= |cs| && di == buffer + 2 * cx
      invariant if parsed then cx == |cs| else cx < |cs| && ax == cs[cx]
      invariant ListAt(mem[..], buffer, cs[..cx])
      invariant SameOutside(mem[..], old(mem[..]), buffer, di)
      decreases |cs| - cx, !parsed
    {
      ghost var before := mem[..];
      StoreWord(mem, di, ax);               // stosw
      ListGrows(before, mem[..], buffer, cs, cx);
      di := di + 2;
      cx := cx + 1;
      FatUntouched(old(mem[..]), mem[..], buffer, di);
      ax := FollowLink(mem, ax);
      LinkAlongChain(fat, cs, cx - 1);
      parsed := ax >= MAX_CLUSTERS;
    }
    assert cs[..cx] == cs;
  }

  lemma ListGrows(m1: seq<Byte>, m2: seq<Byte>, di: nat, cs: seq<nat>, k: nat)
    requires k < |cs| && di + 2 * k + 1 < |m2|
    requires ListAt(m1, di, cs[..k]) && SameOutside(m2, m1, di + 2 * k, di + 2 * k + 2)
    requires Word16(m2, di + 2 * k) == cs[k]
    ensures ListAt(m2, di, cs[..k + 1])
  {
    forall i | 0 <= i < k + 1 ensures Word16(m2, di + 2 * i) == cs[..k + 1][i] {
      if i < k {
        assert Word16(m1, di + 2 * i) == cs[..k][i];
      }
    }
  }

  // ----- reading the clusters -----

  /** What the loader asks the BIOS for: drive 0 and the sector of the cluster. */
  function ReadCluster(bios: Bios, c: nat): Option<Sector> {
    bios(0, Chs.FromLba(c + DATA_SEC_OFFSET - 2))
  }

  predicate Readable(bios: Bios, cs: seq<nat>) {
    forall i :: 0 <= i < |cs| ==> ReadCluster(bios, cs[i]).Some?
  }

  /** The sectors of the clusters, one after the other. */
  function Contents(bios: Bios, cs: seq<nat>): (r: seq<Byte>)
    requires Readable(bios, cs)
    ensures |r| == 512 * |cs|
  {
    if cs == [] then []
    else Contents(bios, cs[..|cs| - 1]) + ReadCluster(bios, cs[|cs| - 1]).value
  }

  /** One cluster: convert its number and read the sector. */
  method LoadCluster(mem: array<Byte>, bios: Bios, c: nat, bx: nat) returns (ok: bool)
    requires c < MAX_CLUSTERS && bx + 512 <= mem.Length
    modifies mem
    ensures ok <==> ReadCluster(bios, c).Some?
    ensures ok ==> mem[bx..bx + 512] == ReadCluster(bios, c).value
    ensures SameOutside(mem[..], old(mem[..]), bx, if ok then bx + 512 else bx)
  {
    var ch, cl, dh, dl := Chs.LbaToChs(c + (DATA_SEC_OFFSET - 2));
    var sector := bios(dl, Chs.Address(ch, dh, cl));
    ok := sector.Some?;
    if ok { StoreSector(mem, bx, sector.value); }
  }

  /** Second loop of LoadFile: for each saved cluster, convert, read one sector, advance BX by 512.
      A read error stops the boot with the sectors before it loaded. */
  method ReadClusters(mem: array<Byte>, bios: Bios, list: nat, count: nat, dest: nat, ghost cs: seq<nat>)
    returns (ok: bool)
    requires mem.Length >= 0x1_0000 && count == |cs| > 0
    requires ListAt(mem[..], list, cs) && forall i :: 0 <= i < |cs| ==> cs[i] < MAX_CLUSTERS
    requires list + 2 * |cs| <= dest && dest + 512 * |cs| <= 0x1_0000
    modifies mem
    ensures ok <==> Readable(bios, cs)
    ensures ok ==> mem[dest..dest + 512 * |cs|] == Contents(bios, cs)
    ensures SameOutside(mem[..], old(mem[..]), dest, dest + 512 * |cs|)
  {
    var si, bx, cx := list, dest, count;
    ghost var k := 0;
    ok := true;
    while cx > 0
      invariant 0 <= k <= |cs| && cx == |cs| - k && si == list + 2 * k && bx == dest + 512 * k
      invariant Loaded(bios, mem[..], list, dest, cs, k)
      invariant SameOutside(mem[..], old(mem[..]), dest, bx)
    {
      var ax := Word16(mem[..], si);        // lodsw
      assert ax == cs[k];
      si := si + 2;
      ghost var before := mem[..];
      ok := LoadCluster(mem, bios, ax, bx);
      if !ok { return; }                    // BootFailure
      SectorAppended(bios, before, mem[..], list, dest, cs, k);
      bx := bx + 512;
      cx := cx - 1;
      k := k + 1;
    }
    assert cs[..k] == cs;
  }

  /** The first k clusters are loaded, and the list of all is still there. */
  predicate Loaded(bios: Bios, mem: seq<Byte>, list: nat, dest: nat, cs: seq<nat>, k: nat) {
    && k <= |cs| && ListAt(mem, list, cs) && dest + 512 * k <= |mem|
    && Readable(bios, cs[..k]) && mem[dest..dest + 512 * k] == Contents(bios, cs[..k])
  }

  lemma SectorAppended(bios: Bios, m1: seq<Byte>, m2: seq<Byte>, list: nat, dest: nat, cs: seq<nat>, k: nat)
    requires k < |cs| && list + 2 * |cs| <= dest && dest + 512 * k + 512 <= |m1| && Loaded(bios, m1, list, dest, cs, k)
    requires SameOutside(m2, m1, dest + 512 * k, dest + 512 * k + 512)
    requires ReadCluster(bios, cs[k]) == Some(m2[dest + 512 * k..dest + 512 * k + 512])
    ensures Loaded(bios, m2, list, dest, cs, k + 1)
  {
    var bx := dest + 512 * k;
    assert m2[dest..bx] == m1[dest..bx];
    assert m2[dest..bx + 512] == m2[dest..bx] + m2[bx..bx + 512];
    assert cs[..k + 1][..k] == cs[..k];
    forall i | 0 <= i < |cs| ensures Word16(m2, list + 2 * i) == cs[i] {
      assert Word16(m1, list + 2 * i) == cs[i];
    }
  }

  /** LoadFile, from the call in boot2.asm: the file replaces the FAT it was found with, and has to end
      below the loader's own code at 0x7C00.  The drive
      number the caller passes in DL is overwritten before the first read. */
  method LoadFile(mem: array<Byte>, bios: Bios, numCluster: nat, drive: Byte, ghost cs: seq<nat>) returns (ok: bool)
    requires mem.Length >= 0x1_0000
    requires IsChain(FatIn(mem[..]), cs) && cs[0] == numCluster
    requires 0x1000 + 512 * |cs| <= 0x7C00
    modifies mem
    ensures ok <==> Readable(bios, cs)
    ensures ok ==> mem[0x1000..0x1000 + 512 * |cs|] == Contents(bios, cs)
    ensures forall a :: 0 <= a < mem.Length
              && (a < 0x600 || 0x600 + 2 * |cs| <= a < 0x1000 || 0x1000 + 512 * |cs| <= a)
              ==> mem[a] == old(mem[a])
  {
    var cx := ParseFat(mem, numCluster, FAT_BUFFER_SEG, cs);
    ok := ReadClusters(mem, bios, FAT_BUFFER_SEG, cx, FAT_SEG, cs);
  }

  // ----- a real floppy behind the BIOS -----

  /** Drive 0 holds the image: its 2880 sectors at their addresses, an error everywhere else. */
  ghost predicate Serves(bios: Bios, image: seq<Sector>) {
    && |image| == Chs.TOTAL_SECTORS
    && (forall a: Chs.Address :: bios(0, a) ==
          if Chs.OnFloppy(a) && 0 <= Chs.ToLba(a) < |image| then Some(image[Chs.ToLba(a)]) else None)
  }

  /** Cluster c is read from data sector c - 2, exactly when the disk has that sector.  The table may
      link up to 2879, but the last cluster on the disk is 2845. */
  lemma ClusterOnImage(bios: Bios, image: seq<Sector>, c: nat)
    requires Serves(bios, image) && c < MAX_CLUSTERS
    ensures ReadCluster(bios, c) == if c + 34 < |image| then Some(image[c + 34]) else None
  {
    Chs.OnFloppyExactlyWhen(c + 34);
    if c + 34 < |image| { Chs.RoundTripFromLba(c + 34); }
  }

  /** Consecutive sectors of the image. */
  function SectorsOnImage(image: seq<Sector>, lba: nat, count: nat): (r: seq<Byte>)
    requires lba + count <= |image|
    ensures |r| == 512 * count
  {
    if count == 0 then [] else SectorsOnImage(image, lba, count - 1) + image[lba + count - 1]
  }

  /** The first table of the image: the nine sectors behind the reserved ones. */
  function FatOnImage(image: seq<Sector>): (r: seq<Byte>)
    requires |image| == 2880
    ensures |r| == FAT_BYTES
  {
    SectorsOnImage(image, 4, 9)
  }

  /** Byte by byte: sector lba + i holds the bytes from 512 i on. */
  lemma {:induction false} SectorBytes(image: seq<Sector>, lba: nat, count: nat, i: nat, j: nat)
    requires lba + count <= |image| && i < count && j < 512
    ensures 512 * i + j < 512 * count && SectorsOnImage(image, lba, count)[512 * i + j] == image[lba + i][j]
  {
    if i < count - 1 { SectorBytes(image, lba, count - 1, i, j); }
  }

  lemma FatBytes(image: seq<Sector>, i: nat, j: nat)
    requires |image| == 2880 && i < 9 && j < 512
    ensures 512 * i + j < 4608 && FatOnImage(image)[512 * i + j] == image[4 + i][j]
  {
    SectorBytes(image, 4, 9, i, j);
  }

  lemma {:induction false} FileBytes(image: seq<Sector>, cs: seq<nat>, i: nat, j: nat)
    requires |image| == 2880 && (forall k :: 0 <= k < |cs| ==> cs[k] + 34 < 2880) && i < |cs| && j < 512
    ensures 512 * i + j < 512 * |cs| && FileOnImage(image, cs)[512 * i + j] == image[cs[i] + 34][j]
  {
    if i < |cs| - 1 { FileBytes(image, cs[..|cs| - 1], i, j); }
  }

  /** Byte k of a file is byte k % 512 of the sector of its cluster k / 512. */
  lemma FileByte(image: seq<Sector>, cs: seq<nat>, k: nat)
    requires |image| == 2880 && (forall i :: 0 <= i < |cs| ==> cs[i] + 34 < 2880) && k < 512 * |cs|
    ensures k / 512 < |cs| && FileOnImage(image, cs)[k] == image[cs[k / 512] + 34][k % 512]
  {
    FileBytes(image, cs, k / 512, k % 512);
  }

  lemma {:induction false} TrackOnImage(bios: Bios, image: seq<Sector>, count: nat)
    requires Serves(bios, image) && count <= 14
    ensures TrackReadable(bios, 0, Chs.Address(0, 0, 5), count)
    ensures TrackContents(bios, 0, Chs.Address(0, 0, 5), count) == SectorsOnImage(image, 4, count)
  {
    if count > 0 {
      TrackOnImage(bios, image, count - 1);
      var a := Chs.Address(0, 0, 5 + (count - 1));
      assert Chs.OnFloppy(a) && Chs.ToLba(a) == 4 + (count - 1);
      assert TrackSector(bios, 0, Chs.Address(0, 0, 5), count - 1) == bios(0, a) == Some(image[4 + count - 1]);
    }
  }

  function FileOnImage(image: seq<Sector>, cs: seq<nat>): (r: seq<Byte>)
    requires |image| == 2880 && forall i :: 0 <= i < |cs| ==> cs[i] + 34 < 2880
    ensures |r| == 512 * |cs|
  {
    if cs == [] then [] else FileOnImage(image, cs[..|cs| - 1]) + image[cs[|cs| - 1] + 34]
  }

  lemma {:induction false} ContentsOnImage(bios: Bios, image: seq<Sector>, cs: seq<nat>)
    requires Serves(bios, image) && forall i :: 0 <= i < |cs| ==> cs[i] < MAX_CLUSTERS
    ensures Readable(bios, cs) <==> forall i :: 0 <= i < |cs| ==> cs[i] + 34 < |image|
    ensures Readable(bios, cs) ==> Contents(bios, cs) == FileOnImage(image, cs)
  {
    forall i | 0 <= i < |cs| ensures ReadCluster(bios, cs[i]).Some? <==> cs[i] + 34 < |image| {
      ClusterOnImage(bios, image, cs[i]);
    }
    if cs != [] {
      ContentsOnImage(bios, image, cs[..|cs| - 1]);
      ClusterOnImage(bios, image, cs[|cs| - 1]);
    }
  }

  /** The loader reads the drive it was given, whatever the drives hold, exactly when that is drive 0. */
  lemma DriveHonouredExactlyWhen(drive: Byte)
    ensures (forall bios: Bios, c: nat :: ReadCluster(bios, c) == bios(drive, Chs.FromLba(c + DATA_SEC_OFFSET - 2)))
            <==> drive == 0
  {
    if drive != 0 {
      var s: Sector := seq(512, _ => 0);
      var bios: Bios := (d: nat, a: Chs.Address) => if d == 0 then None else Some(s);
      assert ReadCluster(bios, 2).None?;
      assert bios(drive, Chs.FromLba(2 + DATA_SEC_OFFSET - 2)).Some?;
    }
  }

  // ----- relocation -----

  // The distance from the loaded to the relocated kernel.
  const DISTANCE: nat := 0xF_F000

  /** After `done` bytes of the upward copy. */
  predicate Copied(now: seq<Byte>, before: seq<Byte>, done: nat) {
    && FAT_SEG + DISTANCE + done <= |before|
    && SameOutside(now, before, KERNEL_HIMEM, KERNEL_HIMEM + done)
    && forall j :: 0 <= j < done ==> now[KERNEL_HIMEM + j] == before[FAT_SEG + j % DISTANCE]
  }

  /** The byte that `rep movs` reads for offset k, when `done` bytes were copied. */
  lemma SourceByte(before: seq<Byte>, now: seq<Byte>, done: nat, k: nat)
    requires Copied(now, before, done) && done <= k < done + 4 && KERNEL_HIMEM + k < |before|
    ensures now[FAT_SEG + k] == before[FAT_SEG + k % DISTANCE]
  {
    if k >= DISTANCE {
      var j := k - DISTANCE;
      assert FAT_SEG + k == KERNEL_HIMEM + j;
      assert j % 0xF_F000 == k % 0xF_F000;
    }
  }

  method MoveByte(mem: array<Byte>, done: nat, ghost before: seq<Byte>)
    requires KERNEL_HIMEM + done < mem.Length && Copied(mem[..], before, done)
    modifies mem
    ensures Copied(mem[..], before, done + 1)
  {
    SourceByte(before, mem[..], done, done);
    mem[KERNEL_HIMEM + done] := mem[FAT_SEG + done];
  }

  method MoveDword(mem: array<Byte>, done: nat, ghost before: seq<Byte>)
    requires KERNEL_HIMEM + done + 4 <= mem.Length && Copied(mem[..], before, done)
    modifies mem
    ensures Copied(mem[..], before, done + 4)
  {
    SourceByte(before, mem[..], done, done);
    SourceByte(before, mem[..], done, done + 1);
    SourceByte(before, mem[..], done, done + 2);
    SourceByte(before, mem[..], done, done + 3);
    var b0, b1, b2, b3 := mem[FAT_SEG + done], mem[FAT_SEG + done + 1], mem[FAT_SEG + done + 2], mem[FAT_SEG + done + 3];
    mem[KERNEL_HIMEM + done] := b0;
    mem[KERNEL_HIMEM + done + 1] := b1;
    mem[KERNEL_HIMEM + done + 2] := b2;
    mem[KERNEL_HIMEM + done + 3] := b3;
  }

  /** main32: size / 4 dwords, then size & 3 bytes, both upwards.  A file longer than the distance
      would be read back from what was just written, so it would repeat with that period. */
  method Relocate(mem: array<Byte>, size: nat)
    requires KERNEL_HIMEM + size <= mem.Length
    modifies mem
    ensures Copied(mem[..], old(mem[..]), size)
  {
    var ecx := size / 4;                    // rep movsd
    var esi, edi := FAT_SEG, KERNEL_HIMEM;
    while ecx > 0
      invariant 0 <= ecx && esi - FAT_SEG == edi - KERNEL_HIMEM == size / 4 * 4 - 4 * ecx
      invariant Copied(mem[..], old(mem[..]), esi - FAT_SEG)
    {
      MoveDword(mem, esi - FAT_SEG, old(mem[..]));
      esi, edi, ecx := esi + 4, edi + 4, ecx - 1;
    }
    ecx := size % 4;                        // rep movsb
    while ecx > 0
      invariant 0 <= ecx && esi - FAT_SEG == edi - KERNEL_HIMEM == size - ecx
      invariant Copied(mem[..], old(mem[..]), esi - FAT_SEG)
    {
      MoveByte(mem, esi - FAT_SEG, old(mem[..]));
      esi, edi, ecx := esi + 1, edi + 1, ecx - 1;
    }
  }

  /** The relocated image is the loaded one, whatever memory holds, exactly when the image is not
      longer than the distance it is moved. */
  lemma RelocationExactWhen(size: nat)
    ensures (forall now: seq<Byte>, before: seq<Byte> :: Copied(now, before, size)
               ==> now[KERNEL_HIMEM..KERNEL_HIMEM + size] == before[FAT_SEG..FAT_SEG + size])
            <==> size <= DISTANCE
  {
    if size > DISTANCE {
      var before: seq<Byte> := seq(KERNEL_HIMEM + size, i => if i == KERNEL_HIMEM then 1 else 0);
      var now: seq<Byte> := seq(KERNEL_HIMEM + size, i requires 0 <= i < KERNEL_HIMEM + size =>
        if i < KERNEL_HIMEM then before[i] else before[FAT_SEG + (i - KERNEL_HIMEM) % DISTANCE]);
      assert Copied(now, before, size);
      assert now[KERNEL_HIMEM..KERNEL_HIMEM + size][DISTANCE] == now[KERNEL_HIMEM + DISTANCE] == before[FAT_SEG];
      assert before[FAT_SEG..FAT_SEG + size][DISTANCE] == before[KERNEL_HIMEM];
    } else {
      forall now: seq<Byte>, before: seq<Byte> | Copied(now, before, size)
        ensures now[KERNEL_HIMEM..KERNEL_HIMEM + size] == before[FAT_SEG..FAT_SEG + size]
      {
        CopiedWhole(now, before, before[FAT_SEG..FAT_SEG + size], size);
      }
    }
  }

  /** LoadFAT and LoadFile, on the floppy: the file is at KERNEL_SEG. */
  method LoadFromImage(mem: array<Byte>, bios: Bios, numCluster: nat, drive: Byte, ghost cs: seq<nat>, ghost image: seq<Sector>)
    returns (ok: bool)
    requires mem.Length >= 0x1_0000 && Serves(bios, image)
    requires IsChain(FatOnImage(image), cs) && cs[0] == numCluster && 0x1000 + 512 * |cs| <= 0x7C00
    modifies mem
    ensures ok <==> forall i :: 0 <= i < |cs| ==> cs[i] + 34 < |image|
    ensures ok ==> mem[FAT_SEG..FAT_SEG + 512 * |cs|] == FileOnImage(image, cs)
  {
    TrackOnImage(bios, image, 9);
    ok := LoadFat(mem, bios);
    if !ok {
      assert false;
    }
    ContentsOnImage(bios, image, cs);
    ok := LoadFile(mem, bios, numCluster, drive, cs);
  }

  /** From disk to high memory: for a chain in the table on the image and a file size its sectors hold,
      the kernel ends up at 1 MB byte for byte, although it overwrote the table that located it. */
  method LoadKernel(mem: array<Byte>, bios: Bios, numCluster: nat, drive: Byte, fileSize: nat,
                    ghost cs: seq<nat>, ghost image: seq<Sector>)
    returns (ok: bool)
    requires mem.Length >= 0x10_0000 + fileSize && Serves(bios, image)
    requires IsChain(FatOnImage(image), cs) && cs[0] == numCluster
    requires 0x1000 + 512 * |cs| <= 0x7C00 && fileSize <= 512 * |cs|
    modifies mem
    ensures ok <==> forall i :: 0 <= i < |cs| ==> cs[i] + 34 < |image|
    ensures ok ==> forall k :: 0 <= k < fileSize ==>
              k / 512 < |cs| && mem[0x10_0000 + k] == image[cs[k / 512] + 34][k % 512]
  {
    ok := LoadFromImage(mem, bios, numCluster, drive, cs, image);
    if !ok { return; }
    ghost var loaded := mem[..];
    Relocate(mem, fileSize);
    CopiedWhole(mem[..], loaded, FileOnImage(image, cs), fileSize);
    forall k | 0 <= k < fileSize
      ensures k / 512 < |cs| && mem[0x10_0000 + k] == image[cs[k / 512] + 34][k % 512]
    {
      FileByte(image, cs, k);
      assert mem[0x10_0000 + k] == mem[0x10_0000..0x10_0000 + fileSize][k];
    }
  }

  lemma CopiedWhole(now: seq<Byte>, before: seq<Byte>, file: seq<Byte>, size: nat)
    requires Copied(now, before, size) && size <= |file| <= DISTANCE
    requires before[FAT_SEG..FAT_SEG + |file|] == file
    ensures now[KERNEL_HIMEM..KERNEL_HIMEM + size] == file[..size]
  {
    forall k | 0 <= k < size ensures now[KERNEL_HIMEM + k] == file[k] {
      assert before[FAT_SEG..FAT_SEG + |file|][k] == before[FAT_SEG + k];
      assert k % 0xF_F000 == k;
    }
  }
}
