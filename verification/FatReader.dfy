/** The firmware's FAT reader: sector cache, chain cursor, directory walk and merged reads over a
    disk opened whole.  The disk is its bytes; a read past the end fails. */
module FatReader {
  import opened Words
  import opened Arithmetic
  import opened Blocks

  const SECTOR := 512
  const NO_SECTOR: u32 := 0xFFFF_FFFF

  datatype Status = ESUCCESS | EIO | ENODEV | ENOENT | ENOTDIR | EISDIR

  // ---- what is on the disk ---------------------------------------------------------------------

  /** An opened FAT partition: FAT_FILE without the file, the cursor and the cache. */
  datatype Volume = Volume(
    disk: seq<byte>,
    partLba: u32,
    bps: u32, spc: byte,
    fatSec: u32, rootSec: u32, rootSecs: u32, dataSec: u32, nclus: u32, rootClus: u32,
    bits: byte)
  {
    function ClusterBytes(): nat { spc * SECTOR }
  }

  function Read(disk: seq<byte>, pos: nat, n: nat): Option<seq<byte>> {
    if pos + n <= |disk| then Some(disk[pos..pos + n]) else None
  }

  /** Sector `sec` of the partition. */
  function SectorOf(v: Volume, sec: u32): (r: Option<seq<byte>>)
    ensures r.Some? ==> |r.value| == SECTOR
  {
    Read(v.disk, Add32(v.partLba, sec) * SECTOR, SECTOR)
  }

  function FatByte(v: Volume, off: u32): Option<byte> {
    var s := SectorOf(v, Add32(v.fatSec, off / SECTOR));
    if s.None? then None else Some(s.value[off % SECTOR])
  }

  /** Two neighbouring bytes of the FAT as a word. */
  function FatWord(v: Volume, off: u32): Option<u16> {
    var b0, b1 := FatByte(v, off), FatByte(v, Add32(off, 1));
    if b0.None? || b1.None? then None else Some(b0.value as int + 0x100 * (b1.value as int))
  }

  /** The raw entry of a cluster: 12, 16 or 28 bits. */
  function FatEntry(v: Volume, clus: u32): Option<u32> {
    if v.bits == 12 then
      var w := FatWord(v, Add32(clus, clus / 2));
      if w.None? then None else Some(if clus % 2 == 1 then w.value / 0x10 else w.value % 0x1000)
    else if v.bits == 16 then
      var w := FatWord(v, clus * 2 % WORD);
      if w.None? then None else Some(w.value)
    else
      var off := clus * 4 % WORD;
      var lo, hi := FatWord(v, off), FatWord(v, Add32(off, 2));
      if lo.None? || hi.None? then None
      else Some((lo.value as int + 0x1_0000 * (hi.value as int)) % 0x1000_0000)
  }

  function EndMark(v: Volume): u32 {
    if v.bits == 12 then 0xFF8 else if v.bits == 16 then 0xFFF8 else 0x0FFF_FFF8
  }

  /** The cluster after `clus`; 0 at the end of the chain, damaged links included. */
  function Next(v: Volume, clus: u32): Option<u32> {
    var e := FatEntry(v, clus);
    if e.None? then None
    else if e.value >= EndMark(v) || e.value < 2 || e.value >= v.nclus then Some(0)
    else e
  }

  function ClusterSector(v: Volume, clus: u32): u32 {
    (v.dataSec + (clus - 2) * v.spc) % WORD
  }

  // ---- what a link is on the disk ----------------------------------------------------------------

  /** The first `n` sectors of the FAT are on the disk. */
  ghost predicate FatOnDisk(v: Volume, n: nat) {
    v.partLba + v.fatSec + n < WORD && n * SECTOR < WORD && (v.partLba + v.fatSec + n) * SECTOR <= |v.disk|
  }

  lemma FatByteIs(v: Volume, n: nat, off: u32)
    requires FatOnDisk(v, n) && off < n * SECTOR
    ensures (v.partLba + v.fatSec) * SECTOR + off < |v.disk|
    ensures FatByte(v, off) == Some(v.disk[(v.partLba + v.fatSec) * SECTOR + off])
  {
    DivMod(off, SECTOR);
    var k := off / SECTOR;
    assert k < n && Add32(v.fatSec, k) == v.fatSec + k && Add32(v.partLba, v.fatSec + k) == v.partLba + v.fatSec + k;
    var at := (v.partLba + v.fatSec + k) * SECTOR;
    assert SectorOf(v, v.fatSec + k) == Some(v.disk[at..at + SECTOR]);
    assert v.disk[at..at + SECTOR][off % SECTOR] == v.disk[at + off % SECTOR];
  }

  lemma FatWordIs(v: Volume, n: nat, off: u32)
    requires FatOnDisk(v, n) && off + 1 < n * SECTOR
    ensures var at := (v.partLba + v.fatSec) * SECTOR + off;
            at + 2 <= |v.disk| && FatWord(v, off) == Some(v.disk[at] as int + 0x100 * (v.disk[at + 1] as int))
  {
    hide FatByte, FatOnDisk;
    FatOnDiskIsSmall(v, n);
    FatByteIs(v, n, off);
    FatByteIs(v, n, off + 1);
  }

  /** FAT12: a cluster's link is the 12 bits at byte c + c / 2, in the upper bits for an odd cluster. */
  lemma Follows12(v: Volume, n: nat, c: u32)
    requires v.bits == 12 && FatOnDisk(v, n) && c + c / 2 + 1 < n * SECTOR
    ensures var at := (v.partLba + v.fatSec) * SECTOR + c + c / 2;
            && at + 2 <= |v.disk|
            && var w := v.disk[at] as int + 0x100 * (v.disk[at + 1] as int);
               var e := if c % 2 == 1 then w / 0x10 else w % 0x1000;
               Next(v, c) == Some(if 2 <= e < v.nclus && e < 0xFF8 then e else 0)
  {
    hide FatWord, FatOnDisk;
    FatOnDiskIsSmall(v, n);
    FatWordIs(v, n, c + c / 2);
  }

  /** FAT16: the two bytes at 2 * c. */
  lemma Follows16(v: Volume, n: nat, c: u32)
    requires v.bits == 16 && FatOnDisk(v, n) && c * 2 + 1 < n * SECTOR
    ensures var at := (v.partLba + v.fatSec) * SECTOR + 2 * c;
            && at + 2 <= |v.disk|
            && var w := v.disk[at] as int + 0x100 * (v.disk[at + 1] as int);
               Next(v, c) == Some(if 2 <= w < v.nclus && w < 0xFFF8 then w else 0)
  {
    hide FatWord, FatOnDisk;
    FatOnDiskIsSmall(v, n);
    FatWordIs(v, n, c * 2);
  }

  /** FAT32: the low 28 bits of the four bytes at 4 * c. */
  lemma Follows32(v: Volume, n: nat, c: u32)
    requires v.bits == 32 && FatOnDisk(v, n) && c * 4 + 3 < n * SECTOR
    ensures var at := (v.partLba + v.fatSec) * SECTOR + 4 * c;
            && at + 4 <= |v.disk|
            && var w := v.disk[at] as int + 0x100 * (v.disk[at + 1] as int)
                        + 0x1_0000 * (v.disk[at + 2] as int) + 0x100_0000 * (v.disk[at + 3] as int);
               var e := w % 0x1000_0000;
               Next(v, c) == Some(if 2 <= e < v.nclus && e < 0x0FFF_FFF8 then e else 0)
  {
    hide FatWord, FatOnDisk, FatEntry;
    FatOnDiskIsSmall(v, n);
    FatWordIs(v, n, c * 4);
    FatWordIs(v, n, c * 4 + 2);
    EntryOf32(v, c);
  }

  lemma EntryOf32(v: Volume, c: u32)
    requires v.bits == 32 && c * 4 + 3 < WORD && FatWord(v, c * 4).Some? && FatWord(v, c * 4 + 2).Some?
    ensures FatEntry(v, c) ==
            Some((FatWord(v, c * 4).value as int + 0x1_0000 * (FatWord(v, c * 4 + 2).value as int)) % 0x1000_0000)
  {
    hide FatWord;
    assert c * 4 % WORD == c * 4 && Add32(c * 4, 2) == c * 4 + 2;
  }

  lemma FatOnDiskIsSmall(v: Volume, n: nat)
    ensures FatOnDisk(v, n) ==> n * SECTOR < WORD
  {
  }

  // ---- a file ----------------------------------------------------------------------------------

  /** The volume's data area lies on the disk, and its sector numbers do not wrap. */
  ghost predicate OnDisk(v: Volume) {
    && v.spc > 0 && v.nclus >= 2
    && v.partLba + v.dataSec + (v.nclus - 2) * v.spc < WORD
    && (v.partLba + v.dataSec + (v.nclus - 2) * v.spc) * SECTOR <= |v.disk|
  }

  ghost predicate InRange(v: Volume, cs: seq<u32>) {
    forall i :: 0 <= i < |cs| ==> 2 <= cs[i] < v.nclus
  }

  /** `cs` is what the reader finds following the FAT from cs[0]. */
  ghost predicate Linked(v: Volume, cs: seq<u32>) {
    forall i :: 0 <= i < |cs| - 1 ==> Next(v, cs[i]) == Some(cs[i + 1])
  }

  /** The first byte of a cluster on the disk. */
  function Start(v: Volume, clus: u32): int {
    (v.partLba + v.dataSec + (clus - 2) * v.spc) * SECTOR
  }

  lemma StartOnDisk(v: Volume, clus: u32)
    requires OnDisk(v) && 2 <= clus < v.nclus
    ensures ClusterSector(v, clus) == v.dataSec + (clus - 2) * v.spc
    ensures Start(v, clus) == Add32(v.partLba, ClusterSector(v, clus)) * SECTOR
    ensures 0 <= Start(v, clus) && Start(v, clus) + v.ClusterBytes() <= |v.disk|
  {
    BlockBound(clus - 2, v.nclus - 2, v.spc);
  }

  lemma NextStart(v: Volume, clus: u32)
    requires clus + 1 < WORD
    ensures Start(v, clus + 1) == Start(v, clus) + v.ClusterBytes()
  {
    MulAdd(clus - 2, 1, v.spc);
  }

  /** The data of each cluster of a chain. */
  ghost function Parts(v: Volume, cs: seq<u32>): (parts: seq<seq<byte>>)
    ensures |parts| == |cs| && Uniform(parts, v.ClusterBytes())
  {
    seq(|cs|, i requires 0 <= i < |cs| => Extent(v.disk, Start(v, cs[i]), v.ClusterBytes()))
  }

  /** What a chain of clusters holds: their data end to end. */
  ghost function Contents(v: Volume, cs: seq<u32>): seq<byte> {
    Flatten(Parts(v, cs))
  }

  ghost predicate Consecutive(cs: seq<u32>) {
    forall j :: 0 <= j < |cs| ==> cs[j] == cs[0] + j
  }

  /** Consecutive clusters follow one another on the disk. */
  lemma {:induction false} RunIsAdjoining(v: Volume, cs: seq<u32>)
    requires OnDisk(v) && InRange(v, cs) && cs != [] && Consecutive(cs)
    ensures Adjoining(v.disk, Start(v, cs[0]), Parts(v, cs), v.ClusterBytes())
    ensures 0 <= Start(v, cs[0]) && Start(v, cs[0]) + |Flatten(Parts(v, cs))| <= |v.disk|
    decreases |cs|
  {
    hide Start, OnDisk, Parts, Volume.ClusterBytes, ClusterSector, Add32;
    StartOnDisk(v, cs[0]);
    PartsTail(v, cs);
    var rest := cs[1..];
    if rest != [] {
      assert rest[0] == cs[0] + 1;
      NextStart(v, cs[0]);
      RunIsAdjoining(v, rest);
    } else {
      assert Parts(v, rest) == [];
    }
  }

  lemma PartsTail(v: Volume, cs: seq<u32>)
    requires cs != []
    ensures Parts(v, cs)[0] == Extent(v.disk, Start(v, cs[0]), v.ClusterBytes()) && Parts(v, cs)[1..] == Parts(v, cs[1..])
  {
    hide Start;
  }

  /** `n` bytes at offset `off` of the i-th cluster, within `run` consecutive clusters of `span`
      bytes, are the file's bytes from the i-th cluster's place `at` in it. */
  lemma RunReadsFile(v: Volume, cs: seq<u32>, i: nat, run: nat, at: nat, span: nat, off: nat, n: nat)
    requires OnDisk(v) && InRange(v, cs) && run > 0 && i + run <= |cs| && Consecutive(cs[i..i + run])
    requires at == i * v.ClusterBytes() && span == run * v.ClusterBytes() && off + n <= span
    ensures 0 <= Start(v, cs[i]) && Start(v, cs[i]) + off + n <= |v.disk|
    ensures at + off + n <= |Contents(v, cs)|
    ensures v.disk[Start(v, cs[i]) + off..Start(v, cs[i]) + off + n] == Contents(v, cs)[at + off..at + off + n]
  {
    hide Start, OnDisk, InRange, Consecutive, Volume.ClusterBytes, Flatten;
    var parts := Parts(v, cs);
    var a, b, d := Flatten(parts[..i]), Flatten(parts[i..i + run]), Flatten(parts[i + run..]);
    FlattenMiddle(parts, v.ClusterBytes(), i, run);
    RunIsExtent(v, cs, i, run);
    Glue(v.disk, Start(v, cs[i]), a, b, d, off, n);
  }

  lemma RunIsExtent(v: Volume, cs: seq<u32>, i: nat, run: nat)
    requires OnDisk(v) && InRange(v, cs) && run > 0 && i + run <= |cs| && Consecutive(cs[i..i + run])
    ensures var b := Flatten(Parts(v, cs)[i..i + run]);
            && 0 <= Start(v, cs[i]) && Start(v, cs[i]) + |b| <= |v.disk|
            && v.disk[Start(v, cs[i])..Start(v, cs[i]) + |b|] == b
  {
    var now := cs[i..i + run];
    assert Parts(v, cs)[i..i + run] == Parts(v, now);
    RunIsAdjoining(v, now);
    AdjoiningIsExtent(v.disk, Start(v, cs[i]), Parts(v, now), v.ClusterBytes());
  }

  lemma Glue(disk: seq<byte>, start: nat, a: seq<byte>, b: seq<byte>, d: seq<byte>, off: nat, n: nat)
    requires start + |b| <= |disk| && disk[start..start + |b|] == b && off + n <= |b|
    ensures disk[start + off..start + off + n] == (a + (b + d))[|a| + off..|a| + off + n]
  {
    SliceOfMiddle(a, b, d, off, n);
    SliceOfSlice(disk, start, |b|, off, n);
  }

  /** The chain stops at its last cluster. */
  ghost predicate Ends(v: Volume, cs: seq<u32>) {
    cs != [] && Next(v, cs[|cs| - 1]) == Some(0)
  }

  /** The chain of a file of `size` bytes: it covers the file, or this is all of it.  An empty file
      has an empty one. */
  ghost predicate ChainOk(v: Volume, cs: seq<u32>, size: u32) {
    && OnDisk(v) && InRange(v, cs) && Linked(v, cs)
    && (size <= |cs| * v.ClusterBytes() || Ends(v, cs))
  }

  /** A file of `size` bytes whose chain covers it. */
  ghost predicate FileOk(v: Volume, cs: seq<u32>, size: u32) {
    ChainOk(v, cs, size) && size <= |cs| * v.ClusterBytes()
  }

  lemma ContentsLength(v: Volume, cs: seq<u32>)
    ensures |Contents(v, cs)| == |cs| * v.ClusterBytes()
  {
    FlattenLength(Parts(v, cs), v.ClusterBytes());
  }

  // ---- reading, a cluster at a time ------------------------------------------------------------

  /** Where the reader stands: the index of a cluster along its chain, and that cluster. */
  datatype Cursor = Cursor(idx: nat, clus: u32)

  /** All of it, the chain ran out, or a sector could not be read. */
  datatype Ending = Whole | ChainEnds | Unreadable

  /** How a read ends, what it delivers and where it leaves the cursor. */
  datatype Outcome = Outcome(end: Ending, data: seq<byte>, cur: Cursor)

  function Then(front: seq<byte>, o: Outcome): Outcome {
    o.(data := front + o.data)
  }

  /** `n` bytes from byte `off` of a cluster on. */
  function Slice(v: Volume, clus: u32, off: nat, n: nat): Option<seq<byte>> {
    Read(v.disk, Add32(v.partLba, ClusterSector(v, clus)) * SECTOR + off, n)
  }

  /** Follow the FAT to the idx-th cluster. */
  function Seek(v: Volume, cur: Cursor, idx: nat): (o: Outcome)
    ensures o.data == [] && (o.end.Whole? && cur.idx <= idx ==> o.cur.idx == idx)
    decreases idx - cur.idx
  {
    if cur.idx >= idx then Outcome(Whole, [], cur)
    else
      match Next(v, cur.clus)
      case None => Outcome(Unreadable, [], cur)
      case Some(c) => if c == 0 then Outcome(ChainEnds, [], Cursor(cur.idx, 0)) else Seek(v, Cursor(cur.idx + 1, c), idx)
  }

  /** `n` bytes from byte `off` of the cursor's cluster on, each cluster read by itself. */
  function From(v: Volume, cur: Cursor, off: nat, n: nat): Outcome
    requires off < v.ClusterBytes()
    decreases n, 0
  {
    var here := v.ClusterBytes() - off;
    var data := Slice(v, cur.clus, off, if n < here then n else here);
    if data.None? then Outcome(Unreadable, [], cur)
    else Then(data.value, if n <= here then Outcome(Whole, [], cur) else Onward(v, cur, n - here))
  }

  /** `n` more bytes from the cluster after the cursor's on. */
  function Onward(v: Volume, cur: Cursor, n: nat): Outcome
    requires v.ClusterBytes() > 0
    decreases n, 1
  {
    var s := Seek(v, cur, cur.idx + 1);
    if s.end.Whole? then From(v, s.cur, 0, n) else s
  }

  /** `n` bytes from byte `pos` of the file that starts at `first`, from wherever the cursor is: back
      to the start when it is past the place. */
  function ReadAt(v: Volume, first: u32, cur: Cursor, pos: nat, n: nat): Outcome
    requires v.ClusterBytes() > 0
  {
    if n == 0 then Outcome(Whole, [], cur)
    else
      var idx := pos / v.ClusterBytes();
      var s := Seek(v, if idx < cur.idx then Cursor(0, first) else cur, idx);
      if s.end.Whole? then From(v, s.cur, pos % v.ClusterBytes(), n) else s
  }

  /** How much of a file of `size` bytes a read of `count` at `pos` asks for. */
  function Wanted(size: u32, pos: u32, count: u32): nat {
    if pos >= size then 0 else Min(count, size - pos)
  }

  // ---- what a read along a chain returns -------------------------------------------------------

  ghost predicate OnChain(cs: seq<u32>, cur: Cursor) {
    cur.idx < |cs| && cur.clus == cs[cur.idx]
  }

  lemma {:induction false} SeekOnChain(v: Volume, cs: seq<u32>, cur: Cursor, idx: nat)
    requires InRange(v, cs) && Linked(v, cs) && OnChain(cs, cur) && cur.idx <= idx && (idx < |cs| || Ends(v, cs))
    ensures Seek(v, cur, idx) ==
            if idx < |cs| then Outcome(Whole, [], Cursor(idx, cs[idx])) else Outcome(ChainEnds, [], Cursor(|cs| - 1, 0))
    decreases idx - cur.idx
  {
    hide Next;
    if cur.idx < idx && cur.idx + 1 < |cs| {
      assert Next(v, cs[cur.idx]) == Some(cs[cur.idx + 1]);
      SeekOnChain(v, cs, Cursor(cur.idx + 1, cs[cur.idx + 1]), idx);
    }
  }

  /** Part of one cluster is that part of the file. */
  lemma SliceOfChain(v: Volume, cs: seq<u32>, i: nat, at: nat, off: nat, n: nat)
    requires OnDisk(v) && InRange(v, cs) && i < |cs| && at == i * v.ClusterBytes() && off + n <= v.ClusterBytes()
    ensures at + off + n <= |Contents(v, cs)| && Slice(v, cs[i], off, n) == Some(Contents(v, cs)[at + off..at + off + n])
  {
    hide Contents, Start, Volume.ClusterBytes;
    assert Consecutive(cs[i..i + 1]);
    RunReadsFile(v, cs, i, 1, at, v.ClusterBytes(), off, n);
    StartOnDisk(v, cs[i]);
  }

  /** The block of `c` bytes that byte number `to` - 1 is in. */
  function BlockOf(to: nat, c: nat): nat
    requires to > 0 && c > 0
  {
    (to - 1) / c
  }

  /** What the chain holds from `p` on, `n` bytes of it if it has them. */
  ghost function Rest(v: Volume, cs: seq<u32>, p: nat, n: nat): Outcome
    requires cs != [] && v.ClusterBytes() > 0 && p + n > 0
  {
    var all := Contents(v, cs);
    var last := BlockOf(p + n, v.ClusterBytes());
    if p + n <= |all| then Outcome(Whole, all[p..p + n], Cursor(last, if last < |cs| then cs[last] else 0))
    else Outcome(ChainEnds, if p <= |all| then all[p..] else [], Cursor(|cs| - 1, 0))
  }

  lemma {:induction false} FromOnChain(v: Volume, cs: seq<u32>, i: nat, at: nat, off: nat, n: nat)
    requires OnDisk(v) && InRange(v, cs) && Linked(v, cs) && i < |cs| && at == i * v.ClusterBytes()
    requires off < v.ClusterBytes() && n > 0 && (at + off + n <= |cs| * v.ClusterBytes() || Ends(v, cs))
    ensures From(v, Cursor(i, cs[i]), off, n) == Rest(v, cs, at + off, n)
    decreases n
  {
    hide OnDisk, InRange, Linked, Slice, Contents, Volume.ClusterBytes, Ends, Seek, Rest, Next;
    var c, here, all := v.ClusterBytes(), v.ClusterBytes() - off, Contents(v, cs);
    ContentsLength(v, cs);
    SliceOfChain(v, cs, i, at, off, if n < here then n else here);
    if n <= here {
      LastOf(v, cs, i, at, off, n);
      assert all[at + off..at + off + n] + [] == all[at + off..at + off + n];
    } else {
      MulAdd(i, 1, c);
      SeekOnChain(v, cs, Cursor(i, cs[i]), i + 1) by { MoreOfChain(v, cs, i, at + off + n); }
      if i + 1 < |cs| {
        FromOnChain(v, cs, i + 1, at + c, 0, n - here);
        RestJoins(v, cs, at + off, here, n - here);
      } else {
        LastCluster(v, cs, i, at, off, n);
      }
    }
  }

  lemma MoreOfChain(v: Volume, cs: seq<u32>, i: nat, to: nat)
    requires i < |cs|
    ensures (i + 1) * v.ClusterBytes() < to <= |cs| * v.ClusterBytes() ==> i + 1 < |cs|
  {
  }

  lemma LastOf(v: Volume, cs: seq<u32>, i: nat, at: nat, off: nat, n: nat)
    requires i < |cs| && at == i * v.ClusterBytes() && 0 < n && off + n <= v.ClusterBytes()
    requires at + off + n <= |Contents(v, cs)|
    ensures Rest(v, cs, at + off, n) == Outcome(Whole, Contents(v, cs)[at + off..at + off + n], Cursor(i, cs[i]))
  {
    hide Contents, Volume.ClusterBytes;
    DivModUnique(at + off + n - 1, v.ClusterBytes(), i, off + n - 1);
  }

  lemma RestJoins(v: Volume, cs: seq<u32>, p: nat, n: nat, more: nat)
    requires cs != [] && v.ClusterBytes() > 0 && more > 0 && p + n <= |Contents(v, cs)|
    ensures Rest(v, cs, p, n + more) == Then(Contents(v, cs)[p..p + n], Rest(v, cs, p + n, more))
  {
    hide Contents, Volume.ClusterBytes;
    var all := Contents(v, cs);
    if p + n + more <= |all| {
      assert all[p..p + n + more] == all[p..p + n] + all[p + n..p + n + more];
    }
    assert all[p..] == all[p..p + n] + all[p + n..];
  }

  /** Past the last cluster nothing follows. */
  lemma LastCluster(v: Volume, cs: seq<u32>, i: nat, at: nat, off: nat, n: nat)
    requires i + 1 == |cs| && at == i * v.ClusterBytes() && off < v.ClusterBytes() && off + n > v.ClusterBytes()
    ensures at + v.ClusterBytes() == |Contents(v, cs)|
    ensures Rest(v, cs, at + off, n) == Outcome(ChainEnds, Contents(v, cs)[at + off..at + v.ClusterBytes()], Cursor(|cs| - 1, 0))
  {
    hide Contents, Volume.ClusterBytes;
    ContentsLength(v, cs);
    MulAdd(i, 1, v.ClusterBytes());
    assert Contents(v, cs)[at + off..] == Contents(v, cs)[at + off..at + v.ClusterBytes()];
  }

  /** From any place on its chain, reading a file returns the file: the bytes asked for when the
      chain reaches that far, and otherwise what it has, with the cursor left at no cluster. */
  lemma ReadOfChain(v: Volume, cs: seq<u32>, size: u32, cur: Cursor, pos: nat, n: nat)
    requires ChainOk(v, cs, size) && OnChain(cs, cur) && n > 0 && pos + n <= size
    ensures ReadAt(v, cs[0], cur, pos, n) == Rest(v, cs, pos, n)
  {
    hide OnDisk, InRange, Linked, Contents, Volume.ClusterBytes, Ends, Seek, Rest, From;
    var c := v.ClusterBytes();
    ClusterBytesPositive(v);
    var idx, off := pos / c, pos % c;
    DivMod(pos, c);
    DivBound(pos, c, |cs|);
    ContentsLength(v, cs);
    SeekOnChain(v, cs, if idx < cur.idx then Cursor(0, cs[0]) else cur, idx);
    if idx < |cs| {
      FromOnChain(v, cs, idx, idx * c, off, n);
    } else {
      PastTheEnd(v, cs, pos, n);
    }
  }

  lemma ClusterBytesPositive(v: Volume)
    ensures OnDisk(v) ==> v.ClusterBytes() > 0
  {
  }

  lemma PastTheEnd(v: Volume, cs: seq<u32>, p: nat, n: nat)
    requires cs != [] && v.ClusterBytes() > 0 && n > 0 && p >= |Contents(v, cs)|
    ensures Rest(v, cs, p, n) == Outcome(ChainEnds, [], Cursor(|cs| - 1, 0))
  {
    hide Contents, Volume.ClusterBytes;
  }

  // ---- any sequence of reads -------------------------------------------------------------------

  datatype Call = Call(pos: u32, count: u32)
  {
    function Asked(size: u32): nat { Wanted(size, pos, count) }
  }

  /** The reads of one open file, each from where the one before it left the cursor. */
  function Reads(v: Volume, first: u32, size: u32, cur: Cursor, calls: seq<Call>): (os: seq<Outcome>)
    requires v.ClusterBytes() > 0
    ensures |os| == |calls|
    decreases |calls|
  {
    if calls == [] then []
    else
      var o := ReadAt(v, first, cur, calls[0].pos, calls[0].Asked(size));
      [o] + Reads(v, first, size, o.cur, calls[1..])
  }

  /** The bytes of `all` from the call's position on: as many as it counts, up to byte `size`. */
  ghost predicate IsSlice(data: seq<byte>, all: seq<byte>, call: Call, size: u32) {
    if call.pos >= size then data == []
    else
      && |data| == Min(call.count, size - call.pos)
      && call.pos + |data| <= |all| && data == all[call.pos..call.pos + |data|]
  }

  /** A slice of a chain's contents within the file is a slice of the file. */
  lemma SliceOfFront(got: seq<byte>, all: seq<byte>, data: seq<byte>, call: Call)
    requires data <= all && |data| < WORD && IsSlice(got, all, call, |data|)
    ensures IsSlice(got, data, call, |data|)
  {
    var n := call.Asked(|data|);
    if n > 0 {
      assert all[..|data|][call.pos..call.pos + n] == all[call.pos..call.pos + n];
    }
  }

  /** One read of a file from any place on its chain returns the slice asked for and leaves the cursor
      on the chain. */
  lemma ReadStaysOnChain(v: Volume, cs: seq<u32>, size: u32, cur: Cursor, call: Call)
    requires FileOk(v, cs, size) && OnChain(cs, cur)
    ensures v.ClusterBytes() > 0
    ensures var o := ReadAt(v, cs[0], cur, call.pos, call.Asked(size));
            o.end.Whole? && IsSlice(o.data, Contents(v, cs), call, size) && OnChain(cs, o.cur)
  {
    hide OnDisk, InRange, Linked, Contents, Volume.ClusterBytes, Seek, From;
    ClusterBytesPositive(v);
    ContentsLength(v, cs);
    var n := call.Asked(size);
    if n > 0 {
      ReadOfChain(v, cs, size, cur, call.pos, n);
      DivBound(call.pos + n - 1, v.ClusterBytes(), |cs|);
    }
  }

  /** Any reads of a file, in any order, return each its slice, and none of them loses the place: the
      cursor is on the chain after each. */
  lemma {:induction false} ReadsReturnSlices(v: Volume, cs: seq<u32>, size: u32, cur: Cursor, calls: seq<Call>, k: nat)
    requires FileOk(v, cs, size) && OnChain(cs, cur) && k < |calls|
    ensures v.ClusterBytes() > 0
    ensures var o := Reads(v, cs[0], size, cur, calls)[k];
            o.end.Whole? && IsSlice(o.data, Contents(v, cs), calls[k], size) && OnChain(cs, o.cur)
    decreases k
  {
    var first := cs[0];
    hide FileOk, ReadAt, IsSlice, OnChain, Contents, Volume.ClusterBytes;
    ReadStaysOnChain(v, cs, size, cur, calls[0]);
    if k > 0 {
      ReadsReturnSlices(v, cs, size, ReadAt(v, first, cur, calls[0].pos, calls[0].Asked(size)).cur, calls[1..], k - 1);
    }
  }

  // ---- after a failed read ---------------------------------------------------------------------

  /** A read that ran off the end of a chain leaves the cursor at the last index and no cluster.  The
      next read before the last cluster goes back to the start and returns what it always did.  One
      in the last cluster reads at cluster 0 instead, and one that goes further goes wherever the FAT
      entry of cluster 0 leads. */
  lemma ReadAfterFailure(v: Volume, cs: seq<u32>, size: u32, pos: nat, n: nat, last: nat)
    requires ChainOk(v, cs, size) && Ends(v, cs) && n > 0 && pos + n <= size
    requires last == (|cs| - 1) * v.ClusterBytes()
    ensures var lost, end, c := Cursor(|cs| - 1, 0), last + v.ClusterBytes(), v.ClusterBytes();
            c > 0 &&
            var r := ReadAt(v, cs[0], lost, pos, n);
            && (pos < last ==> r == Rest(v, cs, pos, n))
            && (last <= pos < end ==>
                  var here := Slice(v, 0, pos - last, if pos + n <= end then n else end - pos);
                  r == if here.None? then Outcome(Unreadable, [], lost)
                       else if pos + n <= end then Outcome(Whole, here.value, lost)
                       else Then(here.value, ReadAt(v, cs[0], lost, end, pos + n - end)))
            && (end <= pos ==>
                  r == match Next(v, 0)
                       case None => Outcome(Unreadable, [], lost)
                       case Some(next) =>
                         if next == 0 then Outcome(ChainEnds, [], lost)
                         else ReadAt(v, cs[0], Cursor(|cs|, next), pos, n))
  {
    hide OnDisk, InRange, Linked, Volume.ClusterBytes, From, Rest, Next, Slice, Onward;
    var c, k, lost, end := v.ClusterBytes(), |cs| - 1, Cursor(|cs| - 1, 0), last + v.ClusterBytes();
    ClusterBytesPositive(v);
    MulAdd(k, 1, c);
    DivMod(pos, c);
    DivBound(pos, c, k);
    DivBound(pos, c, k + 1);
    if pos < last {
      MulMono(k, |cs|, c);
      MoveToStart(v, cs, lost, pos, n);
      ReadOfChain(v, cs, size, Cursor(0, cs[0]), pos, n);
    } else if pos < end {
      DivModUnique(pos, c, k, pos - last);
      FromStep(v, lost, pos - last, n);
      NextPass(v, cs[0], lost, k, 1, c, pos, pos - last, n);
    }
  }

  /** A position before the cursor's cluster is looked for from the start. */
  lemma MoveToStart(v: Volume, cs: seq<u32>, cur: Cursor, pos: nat, n: nat)
    requires cs != [] && v.ClusterBytes() > 0 && n > 0 && pos / v.ClusterBytes() < cur.idx
    ensures ReadAt(v, cs[0], cur, pos, n) == ReadAt(v, cs[0], Cursor(0, cs[0]), pos, n)
  {
    hide Volume.ClusterBytes, Seek, From;
  }

  /** Where reads can leave the cursor of a file whose chain is too short: on the chain, or anywhere at
      the last index or past it. */
  ghost predicate OnChainOrPast(cs: seq<u32>, cur: Cursor) {
    cs != [] && (OnChain(cs, cur) || cur.idx >= |cs| - 1)
  }

  lemma {:induction false} SeekGoesOn(v: Volume, cur: Cursor, idx: nat)
    ensures Seek(v, cur, idx).cur.idx >= cur.idx
    decreases idx - cur.idx
  {
    hide Next;
    var next := Next(v, cur.clus);
    if cur.idx < idx && next.Some? && next.value != 0 {
      SeekGoesOn(v, Cursor(cur.idx + 1, next.value), idx);
    }
  }

  lemma {:induction false} FromGoesOn(v: Volume, cur: Cursor, off: nat, n: nat)
    requires off < v.ClusterBytes()
    ensures From(v, cur, off, n).cur.idx >= cur.idx
    decreases n
  {
    hide Volume.ClusterBytes, Seek, Slice;
    var here := v.ClusterBytes() - off;
    var s := Seek(v, cur, cur.idx + 1);
    SeekGoesOn(v, cur, cur.idx + 1);
    if n > here && s.end.Whole? {
      FromGoesOn(v, s.cur, 0, n - here);
    }
  }

  /** Where the last cluster of a file begins. */
  function LastStart(v: Volume, cs: seq<u32>): int { (|cs| - 1) * v.ClusterBytes() }

  /** One read keeps it so; and if it ends before the last cluster it returns its slice. */
  lemma ReadBeforeLast(v: Volume, cs: seq<u32>, size: u32, cur: Cursor, call: Call)
    requires ChainOk(v, cs, size) && OnChainOrPast(cs, cur)
    ensures v.ClusterBytes() > 0
    ensures var o := ReadAt(v, cs[0], cur, call.pos, call.Asked(size));
            && OnChainOrPast(cs, o.cur)
            && (call.pos + call.Asked(size) <= LastStart(v, cs) ==>
                  o.end.Whole? && IsSlice(o.data, Contents(v, cs), call, size))
  {
    hide OnDisk, InRange, Linked, Contents, Volume.ClusterBytes, Seek, From, Ends, ReadAt, Rest;
    ClusterBytesPositive(v);
    var c, n := v.ClusterBytes(), call.Asked(size);
    DivBound(call.pos, c, |cs| - 1);
    var from := if call.pos / c < cur.idx then Cursor(0, cs[0]) else cur;
    ReadFrom(v, cs, cur, call.pos, n);
    ContentsLength(v, cs);
    MulMono(|cs| - 1, |cs|, c);
    if n > 0 && OnChain(cs, from) {
      ReadOfChain(v, cs, size, from, call.pos, n);
      RestStays(v, cs, call, size);
    }
  }

  lemma ReadFrom(v: Volume, cs: seq<u32>, cur: Cursor, pos: nat, n: nat)
    requires cs != [] && v.ClusterBytes() > 0
    ensures n == 0 ==> ReadAt(v, cs[0], cur, pos, n) == Outcome(Whole, [], cur)
    ensures n > 0 && pos / v.ClusterBytes() < cur.idx ==>
              ReadAt(v, cs[0], cur, pos, n) == ReadAt(v, cs[0], Cursor(0, cs[0]), pos, n)
    ensures pos / v.ClusterBytes() >= cur.idx ==> ReadAt(v, cs[0], cur, pos, n).cur.idx >= cur.idx
  {
    hide Volume.ClusterBytes, Seek, From;
    var idx := pos / v.ClusterBytes();
    if n > 0 && idx < cur.idx {
      MoveToStart(v, cs, cur, pos, n);
    } else if n > 0 {
      var s := Seek(v, cur, idx);
      SeekGoesOn(v, cur, idx);
      FromGoesOn(v, s.cur, pos % v.ClusterBytes(), n);
    }
  }

  lemma RestStays(v: Volume, cs: seq<u32>, call: Call, size: u32)
    requires cs != [] && v.ClusterBytes() > 0 && call.Asked(size) > 0
    ensures var o := Rest(v, cs, call.pos, call.Asked(size));
            && OnChainOrPast(cs, o.cur)
            && (call.pos + call.Asked(size) <= LastStart(v, cs) ==>
                  o.end.Whole? && IsSlice(o.data, Contents(v, cs), call, size))
  {
    hide Contents, Volume.ClusterBytes;
    ContentsLength(v, cs);
    MulMono(|cs| - 1, |cs|, v.ClusterBytes());
    DivBound(call.pos + call.Asked(size) - 1, v.ClusterBytes(), |cs|);
  }

  /** Of a file whose chain is shorter than its size, any reads in any order return their slices as
      long as they end before the last cluster, whatever failed before them. */
  lemma {:induction false} ReadsBeforeLast(v: Volume, cs: seq<u32>, size: u32, cur: Cursor, calls: seq<Call>, k: nat)
    requires ChainOk(v, cs, size) && OnChainOrPast(cs, cur)
    requires k < |calls| && calls[k].pos + calls[k].Asked(size) <= LastStart(v, cs)
    ensures v.ClusterBytes() > 0
    ensures var o := Reads(v, cs[0], size, cur, calls)[k];
            o.end.Whole? && IsSlice(o.data, Contents(v, cs), calls[k], size)
    decreases k
  {
    var first := cs[0];
    hide ChainOk, ReadAt, IsSlice, OnChainOrPast, Contents, Call.Asked, Volume.ClusterBytes, LastStart;
    ReadBeforeLast(v, cs, size, cur, calls[0]);
    if k > 0 {
      ReadsBeforeLast(v, cs, size, ReadAt(v, first, cur, calls[0].pos, calls[0].Asked(size)).cur, calls[1..], k - 1);
    }
  }

  /** Cluster 0 and the last cluster are the same place on the disk exactly when they are 2^32
      sectors apart. */
  lemma LostCursorIsElsewhereIff(v: Volume, cs: seq<u32>)
    requires OnDisk(v) && InRange(v, cs) && cs != []
    ensures var c := cs[|cs| - 1];
            Add32(v.partLba, ClusterSector(v, 0)) != Add32(v.partLba, ClusterSector(v, c)) <==> c * v.spc != WORD
  {
    hide Add32, OnDisk;
    SectorOfCluster(v, cs[|cs| - 1]);
    Shifted(v.partLba, ClusterSector(v, 0), ClusterSector(v, cs[|cs| - 1]));
  }

  lemma SectorOfCluster(v: Volume, c: u32)
    requires OnDisk(v) && 2 <= c < v.nclus
    ensures ClusterSector(v, 0) == ClusterSector(v, c) <==> c * v.spc == WORD
  {
    hide Start, Add32;
    StartOnDisk(v, c);
    BlockBound(c - 2, v.nclus - 2, v.spc);
    MulAdd(c - 2, 2, v.spc);
    MulMono(1, c, v.spc);
    Around(v.dataSec + (c - 2) * v.spc, c * v.spc);
  }

  lemma Around(here: int, back: int)
    ensures 0 <= here < WORD && 0 < back < 2 * WORD ==> ((here - back) % WORD == here <==> back == WORD)
  {
  }

  lemma Shifted(base: u32, a: u32, b: u32)
    ensures Add32(base, a) == Add32(base, b) <==> a == b
  {
  }

  /** Every file of the volume has such a chain: it ends, or goes on past the file. */
  lemma {:induction false} EveryFileHasChain(v: Volume, cs: seq<u32>, size: u32)
    requires OnDisk(v) && InRange(v, cs) && Linked(v, cs) && cs != []
    requires forall c: u32 :: 2 <= c < v.nclus ==> Next(v, c).Some?
    ensures exists more :: cs <= more && ChainOk(v, more, size)
    decreases if size > |cs| then size - |cs| else 0
  {
    hide OnDisk, Next;
    var next := Next(v, cs[|cs| - 1]);
    if size <= |cs| * v.ClusterBytes() || next == Some(0) {
      assert cs <= cs && ChainOk(v, cs, size);
    } else {
      LinkIs(v, cs[|cs| - 1]);
      ClusterBytesPositive(v);
      MulMono(1, v.ClusterBytes(), |cs|);
      var longer := cs + [next.value];
      EveryFileHasChain(v, longer, size);
      var more :| longer <= more && ChainOk(v, more, size);
      assert cs <= longer <= more;
    }
  }

  // ---- merged reads ----------------------------------------------------------------------------

  /** The FAT links `run` clusters from `clus` on by their numbers. */
  ghost predicate Steps(v: Volume, clus: u32, run: nat) {
    forall c: u32 :: clus <= c < clus + run - 1 ==> Next(v, c).Some? && Next(v, c).value as int == c + 1
  }

  /** The cursor `k` clusters on in such a run. */
  function Ahead(cur: Cursor, k: nat): Cursor
    requires cur.clus + k < WORD
  {
    Cursor(cur.idx + k, cur.clus + k)
  }

  /** One disk read over a run of clusters delivers what reading them one by one does. */
  lemma {:induction false} RunIsClusters(v: Volume, cur: Cursor, off: nat, n: nat, run: nat, span: nat)
    requires OnDisk(v) && run > 0 && span == run * v.ClusterBytes()
    requires off < v.ClusterBytes() && span - v.ClusterBytes() < off + n
    requires run > 1 ==> 2 <= cur.clus && cur.clus + run <= v.nclus
    requires Steps(v, cur.clus, run)
    ensures cur.clus + run - 1 < WORD && off < span
    ensures var len := if off + n < span then n else span - off;
            var got, last := Slice(v, cur.clus, off, len), Ahead(cur, run - 1);
            && (run > 1 ==> got.Some?)
            && From(v, cur, off, n) ==
               if got.None? then Outcome(Unreadable, [], cur)
               else Then(got.value, if off + n <= span then Outcome(Whole, [], last) else Onward(v, last, off + n - span))
    decreases run
  {
    hide OnDisk, Slice, Volume.ClusterBytes, Next, Onward, From;
    SpanOf(run, v.ClusterBytes(), span);
    FromStep(v, cur, off, n);
    if run > 1 {
      var c, here, next := v.ClusterBytes(), v.ClusterBytes() - off, Cursor(cur.idx + 1, cur.clus + 1);
      OneStep(v, cur, n - here, run);
      RunIsClusters(v, next, 0, n - here, run - 1, span - c);
      var m := if n - here < span - c then n - here else span - c;
      SliceJoins(v, cur.clus, off, here, m, run, span);
      assert Ahead(next, run - 2) == Ahead(cur, run - 1);
      assert here + m == if off + n < span then n else span - off;
    }
  }

  lemma SpanOf(run: nat, c: nat, span: nat)
    requires run > 0 && span == run * c
    ensures span >= c && (run == 1 ==> span == c) && (run > 1 ==> span - c == (run - 1) * c && span - c >= c)
  {
    MulAdd(run - 1, 1, c);
    if run > 1 {
      MulMono(1, run - 1, c);
    }
  }

  lemma FromStep(v: Volume, cur: Cursor, off: nat, n: nat)
    requires off < v.ClusterBytes()
    ensures var here := v.ClusterBytes() - off;
            var data := Slice(v, cur.clus, off, if n < here then n else here);
            From(v, cur, off, n) ==
            if data.None? then Outcome(Unreadable, [], cur)
            else Then(data.value, if n <= here then Outcome(Whole, [], cur) else Onward(v, cur, n - here))
  {
  }

  lemma OneStep(v: Volume, cur: Cursor, n: nat, run: nat)
    requires v.ClusterBytes() > 0 && Steps(v, cur.clus, run) && run > 1 && cur.clus + run < WORD
    ensures Onward(v, cur, n) == From(v, Cursor(cur.idx + 1, cur.clus + 1), 0, n)
    ensures Steps(v, cur.clus + 1, run - 1)
  {
    hide Next, From, Volume.ClusterBytes;
    var next := Cursor(cur.idx + 1, cur.clus + 1);
    assert Next(v, cur.clus) == Some(next.clus);
    assert Seek(v, next, cur.idx + 1) == Outcome(Whole, [], next);
  }

  lemma StartAhead(v: Volume, clus: u32, k: nat, span: nat)
    requires clus + k < WORD && span == k * v.ClusterBytes()
    ensures Start(v, clus + k) == Start(v, clus) + span
  {
    MulAdd(clus - 2, k, v.spc);
  }

  lemma SliceJoins(v: Volume, clus: u32, off: nat, here: nat, m: nat, run: nat, span: nat)
    requires OnDisk(v) && 2 <= clus && run > 1 && clus + run <= v.nclus && span == run * v.ClusterBytes()
    requires off + here == v.ClusterBytes() && v.ClusterBytes() + m <= span
    ensures var a, b, ab := Slice(v, clus, off, here), Slice(v, clus + 1, 0, m), Slice(v, clus, off, here + m);
            a.Some? && b.Some? && ab == Some(a.value + b.value)
  {
    hide OnDisk, Start, ClusterSector, Volume.ClusterBytes, Add32;
    RunOnDisk(v, clus, run, span);
    ReadJoins(v.disk, Start(v, clus) + off, here, m);
  }

  /** Where the clusters of a run are. */
  lemma RunOnDisk(v: Volume, clus: u32, run: nat, span: nat)
    requires OnDisk(v) && 2 <= clus && run > 1 && clus + run <= v.nclus && span == run * v.ClusterBytes()
    ensures 0 <= Start(v, clus) && Start(v, clus) + span <= |v.disk|
    ensures Start(v, clus) == Add32(v.partLba, ClusterSector(v, clus)) * SECTOR
    ensures Start(v, clus) + v.ClusterBytes() == Add32(v.partLba, ClusterSector(v, clus + 1)) * SECTOR
  {
    hide OnDisk, Start, ClusterSector, Volume.ClusterBytes, Add32;
    SpanOf(run, v.ClusterBytes(), span);
    StartOnDisk(v, clus);
    StartOnDisk(v, clus + 1);
    StartOnDisk(v, clus + run - 1);
    NextStart(v, clus);
    StartAhead(v, clus, run - 1, span - v.ClusterBytes());
  }

  lemma ReadJoins(disk: seq<byte>, at: nat, n: nat, m: nat)
    requires at + n + m <= |disk|
    ensures Read(disk, at, n).Some? && Read(disk, at + n, m).Some?
    ensures Read(disk, at, n + m) == Some(Read(disk, at, n).value + Read(disk, at + n, m).value)
  {
    assert disk[at..at + n + m] == disk[at..at + n] + disk[at + n..at + n + m];
  }

  lemma ThenThen(a: seq<byte>, b: seq<byte>, o: Outcome)
    ensures Then(a, Then(b, o)) == Then(a + b, o) && Then([], o) == o
  {
  }

  lemma SectorIs(v: Volume, sec: u32)
    ensures SectorOf(v, sec) == Read(v.disk, Add32(v.partLba, sec) * SECTOR, SECTOR)
  {
  }

  /** A link leads to a cluster of the volume or to the end. */
  lemma LinkIs(v: Volume, clus: u32)
    ensures Next(v, clus).Some? ==> Next(v, clus).value == 0 || 2 <= Next(v, clus).value < v.nclus
  {
    hide FatEntry;
  }

  lemma StopsHere(v: Volume, cur: Cursor, n: nat)
    ensures v.ClusterBytes() > 0 && Next(v, cur.clus) == None ==> Onward(v, cur, n) == Outcome(Unreadable, [], cur)
  {
    hide Next, From;
  }

  /** Where a pass ends, the next one starts: at the first byte of the cluster after the run. */
  lemma NextPass(v: Volume, first: u32, cur: Cursor, idx: nat, run: nat, span: nat, p: nat, off: nat, n: nat)
    requires v.ClusterBytes() > 0 && run > 0 && cur.idx == idx + run - 1
    requires p == idx * v.ClusterBytes() + off && span == run * v.ClusterBytes()
    requires off <= span
    ensures off + n <= span ==> ReadAt(v, first, cur, p + n, 0) == Outcome(Whole, [], cur)
    ensures off + n > span ==> ReadAt(v, first, cur, p + (span - off), off + n - span) == Onward(v, cur, off + n - span)
  {
    hide Volume.ClusterBytes, Seek, From;
    MulAdd(idx, run, v.ClusterBytes());
    DivModUnique(p + (span - off), v.ClusterBytes(), idx + run, 0);
  }

  // ---- FAT_FILE --------------------------------------------------------------------------------

  /** A volume that was opened, and a size that leaves the sum of a position and a cluster a ULONG. */
  ghost predicate Sound(v: Volume, size: u32) {
    OnDisk(v) && v.fatSec < 0x1_0000 && size + v.ClusterBytes() < WORD
  }

  /** An open file. */
  class FatFile {
    var vol: Volume
    var raw: bool
    var first: u32
    var size: u32
    var curIdx: nat
    var curClus: u32
    var cacheSec: u32
    var cache: seq<byte>

    /** The cache holds the sector it is labelled with. */
    ghost predicate Cached()
      reads this
    {
      SectorOf(vol, cacheSec) == Some(cache)
    }

    /** The cache holds the sector it is labelled with, or is labelled empty. */
    ghost predicate CacheValid()
      reads this
    {
      |cache| == SECTOR && (Cached() || cacheSec == NO_SECTOR)
    }

    /** What asking for a sector gives: the cache has the first word. */
    ghost function Sector(sec: u32): (r: Option<seq<byte>>)
      requires CacheValid()
      reads this
      ensures r.Some? ==> |r.value| == SECTOR
      ensures sec != NO_SECTOR || Cached() ==> r == SectorOf(vol, sec)
    {
      if cacheSec == sec then Some(cache) else SectorOf(vol, sec)
    }

    function Cur(): Cursor
      reads this
    {
      Cursor(curIdx, curClus)
    }

    /** A file whose reads are specified: no link of a FAT names cluster 1, only a directory entry
        can. */
    ghost predicate Valid()
      reads this
    {
      CacheValid() && Sound(vol, size) && first != 1 && curClus != 1
    }

    constructor (v: Volume)
      ensures vol == v && CacheValid() && !raw
    {
      vol, raw, first, size, curIdx, curClus, cacheSec, cache := v, false, 0, 0, 0, 0, NO_SECTOR, Zeros(SECTOR);
    }

    method PartSector(sec: u32) returns (data: Option<seq<byte>>)
      requires CacheValid()
      modifies this`cacheSec, this`cache
      ensures CacheValid() && (data.Some? && (sec != NO_SECTOR || old(Cached())) ==> Cached())
      ensures data == old(Sector(sec))
    {
      hide SectorOf;
      if cacheSec != sec {
        data := Read(vol.disk, Add32(vol.partLba, sec) * SECTOR, SECTOR);
        SectorIs(vol, sec);
        if data.None? {
          cacheSec := NO_SECTOR;
          return;
        }
        cache := data.value;
        cacheSec := sec;
      }
      data := Some(cache);
    }

    method ReadFatByte(off: u32) returns (b: Option<byte>)
      requires CacheValid()
      modifies this`cacheSec, this`cache
      ensures CacheValid() && (b.Some? && Add32(vol.fatSec, off / SECTOR) != NO_SECTOR ==> Cached())
      ensures var s := old(Sector(Add32(vol.fatSec, off / SECTOR)));
              b == if s.None? then None else Some(s.value[off % SECTOR])
    {
      hide SectorOf;
      var data := PartSector(Add32(vol.fatSec, off / SECTOR));
      if data.None? {
        return None;
      }
      b := Some(data.value[off % SECTOR]);
    }

    method ReadFatWord(off: u32) returns (w: Option<u16>)
      requires CacheValid() && vol.fatSec < 0x1_0000
      modifies this`cacheSec, this`cache
      ensures CacheValid() && (w.Some? ==> Cached())
      ensures w == FatWord(vol, off)
    {
      hide SectorOf;
      var b0 := ReadFatByte(off);
      if b0.None? {
        return None;
      }
      var b1 := ReadFatByte(Add32(off, 1));
      if b1.None? {
        return None;
      }
      w := Some(b0.value as int + 0x100 * (b1.value as int));
    }

    /** fat_next; None is EIO. */
    method FatNext(clus: u32) returns (next: Option<u32>)
      requires CacheValid() && vol.fatSec < 0x1_0000
      modifies this`cacheSec, this`cache
      ensures CacheValid() && (next.Some? ==> Cached())
      ensures next == Next(vol, clus)
    {
      hide SectorOf, FatWord;
      var n: u32;
      if vol.bits == 12 {
        var w := ReadFatWord(Add32(clus, clus / 2));
        if w.None? {
          return None;
        }
        n := if clus % 2 == 1 then w.value / 0x10 else w.value % 0x1000;
        n := if n >= 0xFF8 then 0 else n;
      } else if vol.bits == 16 {
        var w := ReadFatWord(clus * 2 % WORD);
        if w.None? {
          return None;
        }
        n := if w.value >= 0xFFF8 then 0 else w.value;
      } else {
        var off := clus * 4 % WORD;
        var lo := ReadFatWord(off);
        if lo.None? {
          return None;
        }
        var hi := ReadFatWord(Add32(off, 2));
        if hi.None? {
          return None;
        }
        n := (lo.value as int + 0x1_0000 * (hi.value as int)) % 0x1000_0000;
        n := if n >= 0x0FFF_FFF8 then 0 else n;
      }
      if n != 0 && (n < 2 || n >= vol.nclus) {
        n := 0;
      }
      next := Some(n);
    }

    /** Move the cursor to the idx-th cluster, from the start if it is already past it. */
    method SeekCluster(idx: nat) returns (status: Status)
      requires CacheValid() && vol.fatSec < 0x1_0000 && first != 1 && curClus != 1
      modifies this`curIdx, this`curClus, this`cacheSec, this`cache
      ensures CacheValid() && curClus != 1
      ensures var s := Seek(vol, if idx < old(curIdx) then Cursor(0, first) else old(Cur()), idx);
              Cur() == s.cur && status == if s.end.Whole? then ESUCCESS else EIO
    {
      hide Next;
      if idx < curIdx {
        curIdx, curClus := 0, first;
      }
      ghost var s := Seek(vol, Cur(), idx);
      while curIdx < idx
        invariant CacheValid() && curClus != 1
        invariant s == Seek(vol, Cur(), idx)
        decreases idx - curIdx
      {
        var next := FatNext(curClus);
        LinkIs(vol, curClus);
        if next.None? {
          return EIO;
        }
        curClus := next.value;
        if curClus == 0 {
          return EIO;
        }
        curIdx := curIdx + 1;
      }
      status := ESUCCESS;
    }

    /** From the cluster at the cursor, take in what follows it both in the chain and on the disk
        while `left` bytes from offset `off` of it are not covered. */
    method ExtendRun(off: nat, left: nat)
      returns (status: Status, avail: u32, ghost run: nat, ghost span: nat)
      requires Valid() && off < vol.ClusterBytes() && 0 < left <= size
      modifies this`curIdx, this`curClus, this`cacheSec, this`cache
      ensures Valid() && run > 0 && Steps(vol, old(curClus), run)
      ensures curIdx == old(curIdx) + run - 1 && curClus == old(curClus) + run - 1
      ensures run > 1 ==> 2 <= old(curClus) && old(curClus) + run <= vol.nclus
      ensures span == run * vol.ClusterBytes() && avail + off == span && span - vol.ClusterBytes() < off + left
      ensures status == ESUCCESS || (status == EIO && Next(vol, curClus) == None && avail < left)
    {
      hide Next, OnDisk;
      var cbytes: u32 := vol.spc * SECTOR;
      run, span := 1, cbytes;
      avail := cbytes - off;
      while avail < left
        invariant Valid() && run > 0 && Steps(vol, old(curClus), run)
        invariant curIdx == old(curIdx) + run - 1 && curClus == old(curClus) + run - 1
        invariant run > 1 ==> 2 <= old(curClus) && old(curClus) + run <= vol.nclus
        invariant span == run * vol.ClusterBytes() && avail + off == span && span - vol.ClusterBytes() < off + left
        decreases left - avail
      {
        var next := FatNext(curClus);
        LinkIs(vol, curClus);
        if next.None? {
          return EIO, avail, run, span;
        }
        if next.value != curClus + 1 {
          break;
        }
        MulAdd(run, 1, vol.ClusterBytes());
        curClus := next.value;
        curIdx := curIdx + 1;
        run, span := run + 1, span + cbytes;
        avail := avail + cbytes;
      }
      status := ESUCCESS;
    }

    /** fat_read: `data` is what arrived, |data| is *got.  Whatever the cursor and the disk are, it is
        the read of one cluster after another, but that a sector of the FAT that cannot be read may
        cost some of the clusters before it. */
    method FatRead(pos: u32, count: u32) returns (status: Status, data: seq<byte>)
      requires if raw then CacheValid() else Valid()
      modifies this`curIdx, this`curClus, this`cacheSec, this`cache
      ensures if raw then CacheValid() else Valid()
      ensures var n := Wanted(size, pos, count);
              if raw then
                && Cur() == old(Cur())
                && status == (if pos >= size || vol.partLba * SECTOR + pos + n <= |vol.disk| then ESUCCESS else EIO)
                && |data| == (if status == ESUCCESS then n else 0)
                && (status == ESUCCESS && n > 0 ==>
                      data == vol.disk[vol.partLba * SECTOR + pos..vol.partLba * SECTOR + pos + n])
              else
                var want := ReadAt(vol, first, old(Cur()), pos, n);
                && Cur() == want.cur
                && status == (if want.end.Whole? then ESUCCESS else EIO)
                && (if want.end.Unreadable? then data <= want.data else data == want.data)
    {
      hide OnDisk, Seek, From, Volume.ClusterBytes;
      data := [];
      if pos >= size {
        return ESUCCESS, data;
      }
      var n := count;
      if n > size - pos {
        n := size - pos;
      }
      if raw {
        var got := Read(vol.disk, vol.partLba * SECTOR + pos, n);
        if got.None? {
          return EIO, data;
        }
        return ESUCCESS, got.value;
      }
      ClusterBytesPositive(vol);
      ghost var want := ReadAt(vol, first, Cur(), pos, n);
      ghost var last := pos + n;
      var p := pos;
      while n > 0
        invariant Valid() && n >= 0 && p + n == last
        invariant want == Then(data, ReadAt(vol, first, Cur(), p, n))
      {
        hide ReadAt;
        var chunk: seq<byte>;
        status, chunk := ReadRun(p, n);
        if status != ESUCCESS {
          return;
        }
        ThenThen(data, chunk, ReadAt(vol, first, Cur(), p + |chunk|, n - |chunk|));
        data := data + chunk;
        p := p + |chunk|;
        n := n - |chunk|;
      }
      status := ESUCCESS;
    }

    /** A caller's reads, one after another on the same open file: each gets its slice, and the cursor
        is on the chain, as `cs` has it, all the time. */
    method ReadEach(calls: seq<Call>, ghost cs: seq<u32>) returns (status: Status, got: seq<seq<byte>>)
      requires !raw && Valid() && FileOk(vol, cs, size) && OnChain(cs, Cur()) && cs[0] == first
      modifies this`curIdx, this`curClus, this`cacheSec, this`cache
      ensures Valid() && OnChain(cs, Cur())
      ensures status == ESUCCESS && |got| == |calls|
      ensures forall k :: 0 <= k < |calls| ==> IsSlice(got[k], Contents(vol, cs), calls[k], size)
    {
      got := [];
      for i := 0 to |calls|
        invariant Valid() && OnChain(cs, Cur())
        invariant |got| == i && forall k :: 0 <= k < i ==> IsSlice(got[k], Contents(vol, cs), calls[k], size)
      {
        hide Valid, FileOk, OnChain, IsSlice, Contents, ReadAt, Volume.ClusterBytes;
        ReadStaysOnChain(vol, cs, size, Cur(), calls[i]);
        var data: seq<byte>;
        status, data := FatRead(calls[i].pos, calls[i].count);
        got := got + [data];
      }
      status := ESUCCESS;
    }

    /** One pass of fat_read's outer loop: one read of the disk. */
    method ReadRun(p: nat, n: nat) returns (status: Status, chunk: seq<byte>)
      requires Valid() && n > 0 && p + n <= size && vol.ClusterBytes() > 0
      modifies this`curIdx, this`curClus, this`cacheSec, this`cache
      ensures Valid() && vol.ClusterBytes() > 0
      ensures var want := ReadAt(vol, first, old(Cur()), p, n);
              if status == ESUCCESS then
                && 0 < |chunk| <= n
                && want == Then(chunk, ReadAt(vol, first, Cur(), p + |chunk|, n - |chunk|))
              else
                && status == EIO && chunk == [] && !want.end.Whole? && Cur() == want.cur
                && (want.end.ChainEnds? ==> want.data == [])
    {
      hide OnDisk, ClusterSector, Volume.ClusterBytes, Add32, Seek, From, Onward, Next, Steps;
      var cbytes := vol.ClusterBytes();
      var idx, off := p / cbytes, p % cbytes;
      DivMod(p, cbytes);
      chunk := [];
      status := SeekCluster(idx);
      if status != ESUCCESS {
        return;
      }
      ghost var cur := Cur();
      var firstClus := curClus;
      var avail: u32;
      ghost var run: nat, span: nat;
      status, avail, run, span := ExtendRun(off, n);
      RunIsClusters(vol, cur, off, n, run, span);
      if status != ESUCCESS {
        StopsHere(vol, Cur(), off + n - span);
        return;
      }
      var len := if avail < n then avail else n;
      var got := Read(vol.disk, Add32(vol.partLba, ClusterSector(vol, firstClus)) * SECTOR + off, len);
      if got.None? {
        return EIO, chunk;
      }
      chunk := got.value;
      NextPass(vol, first, Cur(), idx, run, span, p, off, n);
    }
  }
}
