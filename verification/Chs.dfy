/** BIOS_bootloader/src/utils/LBA2CHS.inc: linear sector numbers to cylinder, head and sector. */
module Chs {

  const SECTORS_PER_TRACK: nat := 18
  const NUM_HEADS: nat := 2
  const TOTAL_SECTORS: nat := 2880

  datatype Address = Address(cylinder: nat, head: nat, sector: nat)

  predicate OnFloppy(a: Address) {
    a.cylinder < 80 && a.head < 2 && 1 <= a.sector <= 18
  }

  /** The sector number of an address. */
  function ToLba(a: Address): int {
    (a.cylinder * 2 + a.head) * 18 + a.sector - 1
  }

  /** The address of a sector number, as the routine leaves it in CH, DH and CL. */
  function FromLba(lba: nat): Address {
    Address(lba / 36 % 0x100, lba / 18 % 2, lba % 18 + 1)
  }

  /** LBA2CHS: DX:AX is divided by the sectors per track, then AX by the heads.  The 8-bit registers
      take the low bytes.  DL, the drive number of the caller, ends up 0. */
  method LbaToChs(lba: nat) returns (ch: nat, cl: nat, dh: nat, dl: nat)
    requires lba < 0x1_0000
    ensures Address(ch, dh, cl) == FromLba(lba) && dl == 0
  {
    var ax, dx := lba, 0;
    var bx := SECTORS_PER_TRACK;
    ax, dx := ax / bx, ax % bx;
    dx := dx + 1;
    cl := dx % 0x100;
    bx := NUM_HEADS;
    dx := 0;
    ax, dx := ax / bx, ax % bx;
    ch := ax % 0x100;
    dh, dl := dx % 0x100, dx / 0x100;  // xchg dh, dl
  }

  /** On the disk the conversion is a bijection and no register truncates. */
  lemma RoundTripFromLba(lba: nat)
    requires lba < TOTAL_SECTORS
    ensures OnFloppy(FromLba(lba)) && ToLba(FromLba(lba)) == lba
  {
    var t := lba / 18;
    assert lba == 18 * t + lba % 18 && t == 2 * (t / 2) + t % 2;
    assert lba / 36 == t / 2 && t / 2 < 80;
  }

  lemma RoundTripFromAddress(a: Address)
    requires OnFloppy(a)
    ensures 0 <= ToLba(a) < TOTAL_SECTORS && FromLba(ToLba(a)) == a
  {
    var t := a.cylinder * 2 + a.head;
    assert ToLba(a) == t * 18 + (a.sector - 1);
    assert ToLba(a) / 18 == t && ToLba(a) % 18 == a.sector - 1;
  }

  lemma CylinderOf(q: nat, c: nat, s: nat)
    requires c < 256 && s < 36
    ensures (9216 * q + 36 * c + s) / 36 == 256 * q + c && (256 * q + c) % 256 == c
  {
  }

  /** For every number the address names a sector of the disk exactly when the number, reduced modulo
      the 256 cylinders of the 8-bit register, is one of the disk. */
  lemma OnFloppyExactlyWhen(lba: nat)
    ensures OnFloppy(FromLba(lba)) <==> lba % 9216 < TOTAL_SECTORS
  {
    var q, r := lba / 9216, lba % 9216;
    assert lba == 9216 * q + r;
    var c, s := r / 36, r % 36;
    assert r == 36 * c + s && c < 256;
    CylinderOf(q, c, s);
    assert lba / 36 % 0x100 == c;
  }

  /** The kernel's floppy driver divides differently (fdc.c, _fdc_lba_to_chs) and agrees exactly as
      long as the cylinder fits its register. */
  lemma AgreesWithDriverExactlyWhen(lba: nat)
    ensures var head, track, sector := lba % 36 / 18, lba / 36, lba % 18 + 1;
            FromLba(lba) == Address(track, head, sector) <==> lba < 0x100 * 36
  {
    var q, r := lba / 36, lba % 36;
    assert lba == 18 * (2 * q) + r;
    assert lba / 18 == 2 * q + r / 18;
  }
}
