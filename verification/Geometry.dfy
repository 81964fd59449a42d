/** tools/mkarcdisk.py: choosing a FAT16 geometry for a partition, and what the firmware makes of the
    boot sector that records it. */
module Geometry {
  import opened Words
  import opened Arithmetic
  import FatReader
  import FatOpen

  const ROOT_ENTRIES: u16 := 512
  const ROOT_SECTORS := 32
  const CLUSTERS_MIN := 4085
  const CLUSTERS_MAX := 65524
  const SPC_MAX := 64
  const ROUNDS := 64

  /** Clusters left when each FAT takes `spf` sectors; Python's floor division. */
  function Clusters(sectors: int, spc: nat, spf: int): int
    requires spc > 0
  {
    (sectors - 1 - 2 * spf - ROOT_SECTORS) / spc
  }

  /** FAT sectors `clusters` clusters need. */
  function Need(clusters: int): int { ((clusters + 2) * 2 + 511) / 512 }

  /** The FAT size the iteration settles at. */
  function Spf(sectors: int, spc: nat): (spf: nat)
    requires spc > 0
    ensures spf > 0
  {
    var need := Need(Clusters(sectors, spc, 1));
    if need <= 1 then 1 else need
  }

  function Settled(sectors: int, spc: nat): int
    requires spc > 0
  {
    Clusters(sectors, spc, Spf(sectors, spc))
  }

  lemma DivMono(x: int, y: int, c: nat)
    requires c > 0 && x <= y
    ensures x / c <= y / c
  {
    var a, b := x / c, y / c;
    assert x == a * c + x % c && y == b * c + y % c;
    assert (b + 1) * c == b * c + c;
    assert a >= b + 1 ==> a * c >= (b + 1) * c;
  }

  /** A larger FAT leaves fewer clusters, which need no larger FAT. */
  lemma NeedIsAntitone(sectors: int, spc: nat, a: int, b: int)
    requires spc > 0 && a <= b
    ensures Clusters(sectors, spc, b) <= Clusters(sectors, spc, a)
    ensures Need(Clusters(sectors, spc, b)) <= Need(Clusters(sectors, spc, a))
  {
    DivMono(sectors - 1 - 2 * b - ROOT_SECTORS, sectors - 1 - 2 * a - ROOT_SECTORS, spc);
  }

  /** One refinement settles the FAT's size: it then holds an entry for every cluster and two more. */
  lemma SettlesAtOnce(sectors: int, spc: nat)
    requires spc > 0
    ensures Need(Settled(sectors, spc)) <= Spf(sectors, spc)
    ensures (Settled(sectors, spc) + 2) * 2 <= Spf(sectors, spc) * 512
  {
    NeedIsAntitone(sectors, spc, 1, Spf(sectors, spc));
  }

  predicate IsSpc(spc: nat) { spc in {1, 2, 4, 8, 16, 32, 64} }

  datatype FatGeometry = FatGeometry(spc: nat, spf: nat, root: nat, clusters: int)

  /** The geometry is the right one for the partition. */
  ghost predicate Fits(sectors: int, g: FatGeometry) {
    && IsSpc(g.spc) && 0 < g.spf < 0x1_0000 && g.root == ROOT_SECTORS
    && CLUSTERS_MIN <= g.clusters <= CLUSTERS_MAX
    && (g.clusters + 2) * 2 <= g.spf * 512
    && 1 + 2 * g.spf + g.root + g.clusters * g.spc <= sectors < 1 + 2 * g.spf + g.root + (g.clusters + 1) * g.spc
    && (forall p: nat :: IsSpc(p) && p < g.spc ==> Settled(sectors, p) > CLUSTERS_MAX)
  }

  const SECTORS_MIN := 4152
  const SECTORS_MAX := 4194144

  /** Grow the cluster until the count fits FAT16's window, settling the FAT's size for each.  It
      succeeds exactly on partitions of 4152 to 4194144 sectors. */
  method Fat16Geometry(sectors: int) returns (g: Option<FatGeometry>)
    ensures g.Some? <==> SECTORS_MIN <= sectors <= SECTORS_MAX
    ensures g.Some? ==> Fits(sectors, g.value)
  {
    hide Clusters, Need, Spf, Settled;
    var spc: nat := 1;
    while true
      invariant IsSpc(spc)
      invariant forall p: nat :: IsSpc(p) && p < spc ==> Settled(sectors, p) > CLUSTERS_MAX
      decreases SPC_MAX - spc
    {
      var spf, clusters := SettleFat(sectors, spc);
      if clusters > CLUSTERS_MAX && spc < SPC_MAX {
        spc := spc * 2;
        continue;
      }
      SizesThatFit(sectors, spc);
      if clusters < CLUSTERS_MIN || clusters > CLUSTERS_MAX {
        return None;
      }
      SettlesAtOnce(sectors, spc);
      FatIsSmall(sectors, spc);
      RegionsAreFull(sectors, spc);
      return Some(FatGeometry(spc, spf, ROOT_SECTORS, clusters));
    }
  }

  /** The inner loop: at most 64 rounds, though the second always ends it. */
  method SettleFat(sectors: int, spc: nat) returns (spf: int, clusters: int)
    requires spc > 0
    ensures spf == Spf(sectors, spc) && clusters == Settled(sectors, spc)
  {
    spf := 1;
    for round := 0 to ROUNDS
      invariant round <= 1
      invariant round == 0 ==> spf == 1
      invariant round == 1 ==> spf == Spf(sectors, spc) == Need(Clusters(sectors, spc, 1)) > 1
    {
      var need := Need(Clusters(sectors, spc, spf));
      NeedIsAntitone(sectors, spc, 1, spf);
      if need <= spf {
        break;
      }
      spf := need;
    }
    clusters := Clusters(sectors, spc, spf);
  }

  lemma RegionsAreFull(sectors: int, spc: nat)
    requires spc > 0
    ensures var spf, c := Spf(sectors, spc), Settled(sectors, spc);
            1 + 2 * spf + ROOT_SECTORS + c * spc <= sectors < 1 + 2 * spf + ROOT_SECTORS + (c + 1) * spc
  {
    hide Spf;
    var x := sectors - 1 - 2 * Spf(sectors, spc) - ROOT_SECTORS;
    assert x == x / spc * spc + x % spc;
    MulAdd(x / spc, 1, spc);
  }

  /** The cluster counts at the sizes where the answer changes. */
  lemma SizesThatFit(sectors: int, spc: nat)
    requires IsSpc(spc)
    requires forall p: nat :: IsSpc(p) && p < spc ==> Settled(sectors, p) > CLUSTERS_MAX
    requires Settled(sectors, spc) <= CLUSTERS_MAX || spc == SPC_MAX
    ensures CLUSTERS_MIN <= Settled(sectors, spc) <= CLUSTERS_MAX <==> SECTORS_MIN <= sectors <= SECTORS_MAX
  {
    if spc == 1 {
      SettledAtOne(sectors);
      assert Settled(sectors, 1) <= CLUSTERS_MAX;
    } else {
      assert IsSpc(spc / 2) && Settled(sectors, spc / 2) > CLUSTERS_MAX;
      Halved(sectors, spc);
      SettledAtMost(sectors);
      assert Settled(sectors, 1) > CLUSTERS_MAX;
      SettledAtOne(sectors);
      if spc < SPC_MAX {
        SettledBelow(sectors, spc);
      }
    }
  }

  lemma SettledAtOne(sectors: int)
    ensures Settled(sectors, 1) >= CLUSTERS_MIN <==> sectors >= SECTORS_MIN
    ensures Settled(sectors, 1) <= CLUSTERS_MAX ==> sectors <= SECTORS_MAX
  {
  }

  lemma SettledAtMost(sectors: int)
    ensures Settled(sectors, SPC_MAX) <= CLUSTERS_MAX <==> sectors <= SECTORS_MAX
  {
  }

  /** Twice the cluster size leaves at least FAT16's least count when half of it left too many. */
  lemma Halved(sectors: int, spc: nat)
    requires IsSpc(spc) && spc > 1 && Settled(sectors, spc / 2) > CLUSTERS_MAX
    ensures Settled(sectors, spc) >= CLUSTERS_MIN
  {
    hide Settled, Spf, Clusters;
    var h := spc / 2;
    SectorsOf(sectors, h);
    SectorsOf(sectors, spc);
  }

  lemma SettledBelow(sectors: int, spc: nat)
    requires IsSpc(spc) && spc < SPC_MAX && Settled(sectors, spc) <= CLUSTERS_MAX
    ensures sectors <= SECTORS_MAX
  {
    hide Settled, Spf, Clusters;
    SectorsOf(sectors, spc);
  }

  lemma Quotient(x: int, c: nat)
    requires c > 0
    ensures x / c * c <= x < x / c * c + c
    ensures x >= 0 ==> x / c <= x
  {
    assert x == x / c * c + x % c;
    if x >= 0 {
      DivMono(0, x, c);
      MulMono(1, c, x / c);
    }
  }

  /** How the settled count ties down the size, without division. */
  lemma SectorsOf(sectors: int, spc: nat)
    requires spc > 0
    ensures var c, spf := Settled(sectors, spc), Spf(sectors, spc);
            && c * spc + 33 + 2 * spf <= sectors < (c + 1) * spc + 33 + 2 * spf
            && (sectors > 0 ==> 256 * spf <= sectors + 800)
            && (spf == 1 || 256 * ((spf - 2) * spc) <= sectors)
  {
    hide Spf, Need;
    Quotient(sectors - 1 - 2 * Spf(sectors, spc) - ROOT_SECTORS, spc);
    MulAdd(Settled(sectors, spc), 1, spc);
    SpfRange(sectors, spc);
  }

  lemma SpfRange(sectors: int, spc: nat)
    requires spc > 0
    ensures var spf := Spf(sectors, spc);
            && (sectors > 0 ==> 256 * spf <= sectors + 800)
            && (spf == 1 || 256 * ((spf - 2) * spc) <= sectors)
  {
    hide Need;
    var first := Clusters(sectors, spc, 1);
    Quotient(sectors - 35, spc);
    NeedRange(first);
    if Need(first) > 1 {
      var k := Need(first) - 2;
      MulMono(256 * k, first, spc);
      assert 256 * k * spc == 256 * (k * spc);
    }
  }

  lemma NeedRange(clusters: int)
    ensures 256 * (Need(clusters) - 2) <= clusters
  {
  }

  /** The FAT's size fits its field in the boot sector. */
  lemma FatIsSmall(sectors: int, spc: nat)
    requires spc > 0 && Settled(sectors, spc) <= CLUSTERS_MAX
    ensures Spf(sectors, spc) < 0x1_0000
  {
    hide Settled, Spf, Clusters;
    var c, spf := Settled(sectors, spc), Spf(sectors, spc);
    SectorsOf(sectors, spc);
    if spf > 1 {
      MulMono(c + 1, 65525, spc);
      MulMono(1, spc, spf - 2);
      LinearBound((spf - 2) * spc, 65525 * spc, spf - 2, spc, sectors);
      assert 254 * ((spf - 2) * spc) == 254 * (spf - 2) * spc;
      assert 65525 * spc + 37 * spc == 65562 * spc;
      Cancel(254 * (spf - 2), 65562, spc);
    }
  }

  lemma LinearBound(ks: int, cs: int, k: int, spc: int, sectors: int)
    ensures 256 * ks <= sectors < cs + 37 + 2 * k && k <= ks && spc >= 1 ==> 254 * ks < cs + 37 * spc
  {
  }

  lemma Cancel(a: int, b: int, c: nat)
    ensures a * c < b * c ==> a < b
  {
  }

  // ---- the boot sector and the firmware --------------------------------------------------------

  const OEM_NAME: seq<byte> := [0x4D, 0x53, 0x44, 0x4F, 0x53, 0x35, 0x2E, 0x30]
  const FS_NAME: seq<byte> := [0x46, 0x41, 0x54, 0x31, 0x36, 0x20, 0x20, 0x20]
  const SERIAL: u32 := 0x4E54_4653

  /** fat16_boot_sector; `volumeName` is its eleven-byte field. */
  function BootSector(total: u32, spc: byte, spf: u16, hidden: u32, spt: u16, heads: u16, volumeName: seq<byte>): (bs: seq<byte>)
    requires |volumeName| == 11
    ensures |bs| == 512
  {
    var small := total < 0x1_0000;
    var head: seq<byte> := [0xEB, 0x3C, 0x90] + OEM_NAME + Bytes16(512) + [spc] + Bytes16(1) + [2]
                           + Bytes16(ROOT_ENTRIES) + Bytes16(if small then total else 0) + [0xF8] + Bytes16(spf)
                           + Bytes16(spt) + Bytes16(heads) + Bytes32(hidden) + Bytes32(if small then 0 else total)
                           + [0x80, 0, 0x29] + Bytes32(SERIAL) + volumeName + FS_NAME;
    head + Zeros(448) + [0x55, 0xAA]
  }

  lemma WordAt(s: seq<byte>, at: nat, v: u16)
    requires at + 2 <= |s| && s[at] == Bytes16(v)[0] && s[at + 1] == Bytes16(v)[1]
    ensures Le16(s, at) == v
  {
  }

  lemma LongAt(s: seq<byte>, at: nat, v: u32)
    requires at + 4 <= |s| && forall i :: 0 <= i < 4 ==> s[at + i] == Bytes32(v)[i]
    ensures Le32(s, at) == v
  {
    var b := Bytes32(v);
    assert s[at + 0] == b[0] && s[at + 1] == b[1] && s[at + 2] == b[2] && s[at + 3] == b[3];
    assert Le32(b, 0) == v;
  }

  lemma BootFields(total: u32, spc: byte, spf: u16, hidden: u32, spt: u16, heads: u16, volumeName: seq<byte>)
    requires |volumeName| == 11
    ensures var b := BootSector(total, spc, spf, hidden, spt, heads, volumeName);
            && Le16(b, 11) == 512 && b[13] == spc && Le16(b, 14) == 1 && b[16] == 2 && Le16(b, 17) == ROOT_ENTRIES
            && Le16(b, 22) == spf && FatOpen.Total(b) == total
            && b[21] == 0xF8 && Le16(b, 24) == spt && Le16(b, 26) == heads && Le32(b, 28) == hidden && b[36] == 0x80 && b[38] == 0x29
            && b[43..54] == volumeName && b[510] == 0x55 && b[511] == 0xAA
  {
    hide Le16, Le32;
    var b := BootSector(total, spc, spf, hidden, spt, heads, volumeName);
    var small := total < 0x1_0000;
    WordAt(b, 11, 512);
    WordAt(b, 14, 1);
    WordAt(b, 17, ROOT_ENTRIES);
    WordAt(b, 19, if small then total else 0);
    WordAt(b, 22, spf);
    WordAt(b, 24, spt);
    WordAt(b, 26, heads);
    LongAt(b, 28, hidden);
    LongAt(b, 32, if small then 0 else total);
  }

  /** The firmware opens the volume as the tool laid it out: same regions, the same number of
      clusters, and FAT16. */
  lemma FirmwareAgrees(disk: seq<byte>, lba: u32, sectors: int, g: FatGeometry, spt: u16, heads: u16, volumeName: seq<byte>)
    requires SECTORS_MIN <= sectors <= SECTORS_MAX && Fits(sectors, g) && |volumeName| == 11
    ensures g.spf < 0x1_0000 && g.spc < 0x100
    ensures var v := FatOpen.Geometry(disk, lba, BootSector(sectors, g.spc, g.spf, lba, spt, heads, volumeName));
            && 0 <= g.clusters + 2 < WORD && 0 <= 1 + 2 * g.spf + g.root < WORD
            && v == Some(FatReader.Volume(disk, lba, 512, g.spc, 1, 1 + 2 * g.spf, g.root, 1 + 2 * g.spf + g.root, g.clusters + 2, 0, 16))
  {
    hide Settled, BootSector, Fits, Le16, Le32, FatOpen.Total, FatOpen.VolumeOf;
    SmallFat(sectors, g);
    BootFields(sectors, g.spc, g.spf, lba, spt, heads, volumeName);
    assert FatOpen.Product(2, g.spf) == 2 * g.spf;
    VolumeAgrees(disk, lba, sectors, g);
  }

  lemma VolumeAgrees(disk: seq<byte>, lba: u32, sectors: int, g: FatGeometry)
    requires SECTORS_MIN <= sectors <= SECTORS_MAX && Fits(sectors, g)
    ensures 0 < g.spc < 0x100 && 0 <= g.clusters + 2 < WORD && 0 <= 1 + 2 * g.spf + g.root < WORD
    ensures FatOpen.VolumeOf(disk, lba, g.spc, 1, 2 * g.spf, ROOT_ENTRIES, sectors, false, 0) ==
            FatReader.Volume(disk, lba, 512, g.spc, 1, 1 + 2 * g.spf, g.root, 1 + 2 * g.spf + g.root, g.clusters + 2, 0, 16)
  {
    hide Settled, Fits, FatOpen.VolumeOf;
    SmallFat(sectors, g);
    SameClusters(sectors, g);
    FatOpen.VolumeIs(disk, lba, g.spc, 1, 2 * g.spf, ROOT_ENTRIES, sectors, false, 0, 1 + 2 * g.spf + g.root, g.clusters + 2);
  }

  lemma SmallFat(sectors: int, g: FatGeometry)
    requires sectors <= SECTORS_MAX && Fits(sectors, g)
    ensures 0 < g.spc < 0x100 && 0 < g.spf < 0x1_0000 && 1 + 2 * g.spf + g.root <= sectors
    ensures CLUSTERS_MIN <= g.clusters <= CLUSTERS_MAX && g.root == ROOT_SECTORS
  {
    MulMono(0, g.clusters, g.spc);
  }

  /** fat_open divides the sectors behind the root directory among the clusters. */
  lemma SameClusters(sectors: int, g: FatGeometry)
    requires Fits(sectors, g)
    ensures (sectors - (1 + 2 * g.spf + g.root)) / g.spc == g.clusters
  {
    hide Settled;
    var x := sectors - (1 + 2 * g.spf + g.root);
    MulAdd(g.clusters, 1, g.spc);
    DivModUnique(x, g.spc, g.clusters, x - g.clusters * g.spc);
  }
}
