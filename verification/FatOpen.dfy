/** Finding a partition, its FAT geometry and a file on it: find_partition, name83, dir_lookup and
    fat_open.  Names and paths are bytes, without their terminator. */
module FatOpen {
  import opened Words
  import opened Arithmetic
  import opened Blocks
  import opened Counting
  import opened FatReader

  const DOT: byte := 0x2E
  const SPACE: byte := 0x20
  const BACKSLASH: byte := 0x5C
  const COMPONENT_MAX := 63

  function UpperByte(c: byte): byte { if 0x61 <= c <= 0x7A then c - 0x20 else c }

  function Upper(s: seq<byte>): (u: seq<byte>)
    ensures |u| == |s| && forall i :: 0 <= i < |s| ==> u[i] == UpperByte(s[i])
  {
    if s == [] then [] else [UpperByte(s[0])] + Upper(s[1..])
  }

  // ---- 8.3 names -------------------------------------------------------------------------------

  /** The index of the first '.', or the length. */
  function FirstDot(s: seq<byte>): (k: nat)
    ensures k <= |s| && (forall i :: 0 <= i < k ==> s[i] != DOT) && (k < |s| ==> s[k] == DOT)
  {
    if s == [] || s[0] == DOT then 0 else 1 + FirstDot(s[1..])
  }

  function Padded(s: seq<byte>, n: nat): (r: seq<byte>)
    requires |s| <= n
    ensures |r| == n
  {
    s + seq(n - |s|, _ => SPACE)
  }

  function Stem(name: seq<byte>): seq<byte> { name[..FirstDot(name)] }

  function Extension(name: seq<byte>): seq<byte> {
    if FirstDot(name) < |name| then name[FirstDot(name) + 1..] else []
  }

  /** The 11 bytes a directory entry carries for a path component, if it has such a form. */
  function Name83(want: seq<byte>): (r: Option<seq<byte>>)
    ensures r.Some? ==> |r.value| == 11
  {
    var stem, ext := Stem(want), Extension(want);
    if |stem| <= 8 && |ext| <= 3 && DOT !in ext then Some(Padded(Upper(stem), 8) + Padded(Upper(ext), 3)) else None
  }

  method MakeName83(want: seq<byte>) returns (r: Option<seq<byte>>)
    ensures r == Name83(want)
  {
    hide FirstDot, Upper;
    assert want[0..] == want;
    var stem := CopyField(want, 0, 8);
    if stem.None? {
      return None;
    }
    assert want[0..FirstDot(want)] == Stem(want);
    var dot := FirstDot(want);
    if dot == |want| {
      assert Padded(Upper([]), 3) == seq(3, _ => SPACE);
      return Some(stem.value + seq(3, _ => SPACE));
    }
    assert want[dot + 1..] == Extension(want);
    var ext := CopyField(want, dot + 1, 3);
    if ext.None? || dot + 1 + FirstDot(want[dot + 1..]) < |want| {
      assert FirstDot(Extension(want)) < |Extension(want)| ==> DOT in Extension(want);
      return None;
    }
    assert want[dot + 1..dot + 1 + FirstDot(Extension(want))] == Extension(want);
    assert DOT !in Extension(want);
    r := Some(stem.value + ext.value);
  }

  /** One of name83's loops: upper-case bytes from `at` up to a '.' or the end, into a field of
      `width` spaces; None if they do not fit. */
  method CopyField(want: seq<byte>, at: nat, width: nat) returns (r: Option<seq<byte>>)
    requires at <= |want|
    ensures var part := want[at..at + FirstDot(want[at..])];
            r == if |part| <= width then Some(Padded(Upper(part), width)) else None
  {
    hide FirstDot, Upper, UpperByte;
    var out: seq<byte> := seq(width, _ => SPACE);
    var n := 0;
    ghost var stop := FirstDot(want[at..]);
    while at + n < |want| && want[at + n] != DOT
      invariant n <= width && n <= stop
      invariant out == Upper(want[at..at + n]) + seq(width - n, _ => SPACE)
    {
      assert want[at + n] == want[at..][n];
      if n >= width {
        return None;
      }
      UpperAppend(want[at..at + n], want[at + n]);
      assert want[at..at + n + 1] == want[at..at + n] + [want[at + n]];
      out := out[n := UpperByte(want[at + n])];
      n := n + 1;
    }
    assert n == stop;
    r := Some(out);
  }

  lemma {:induction false} UpperAppend(s: seq<byte>, c: byte)
    ensures Upper(s + [c]) == Upper(s) + [UpperByte(c)]
  {
    if s != [] {
      UpperAppend(s[1..], c);
      assert (s + [c])[1..] == s[1..] + [c];
    }
  }

  /** A name has an 8.3 form exactly when it has at most eight characters and no dot, or one dot with at
      most eight before and three behind it; the form is its upper case, each part filled with spaces. */
  lemma Name83Iff(want: seq<byte>, k: nat)
    requires k <= |want| && (k < |want| ==> want[k] == 0x2E) && forall i :: 0 <= i < k ==> want[i] != 0x2E
    ensures Name83(want).Some? <==> k <= 8 && |want| <= k + 4 && forall i :: k < i < |want| ==> want[i] != 0x2E
    ensures Name83(want).Some? ==> forall i :: 0 <= i < 11 ==>
              Name83(want).value[i] ==
              var at := if i < 8 then i else k + 1 + (i - 8);
              if (if i < 8 then at < k else at < |want|)
              then (if 0x61 <= want[at] <= 0x7A then want[at] - 0x20 else want[at]) else 0x20
  {
    assert FirstDot(want) == k;
    PartsOfName(want, k);
    hide FirstDot, Upper, Stem, Extension, Padded;
    var stem, ext := Stem(want), Extension(want);
    if |stem| <= 8 && |ext| <= 3 {
      FieldReads(stem, 8);
      FieldReads(ext, 3);
    }
  }

  lemma PartsOfName(want: seq<byte>, k: nat)
    requires k == FirstDot(want)
    ensures var stem, ext := Stem(want), Extension(want);
            && |stem| == k && |ext| == (if k < |want| then |want| - k - 1 else 0)
            && (forall i :: 0 <= i < k ==> stem[i] == want[i]) && (forall i :: 0 <= i < |ext| ==> ext[i] == want[k + 1 + i])
            && (DOT !in ext <==> forall i :: k < i < |want| ==> want[i] != 0x2E)
  {
    hide FirstDot;
    var ext := Extension(want);
    if DOT in ext {
      var i :| 0 <= i < |ext| && ext[i] == DOT;
      assert want[k + 1 + i] == DOT;
    } else {
      assert forall i :: k < i < |want| ==> want[i] == ext[i - (k + 1)];
    }
  }

  lemma FieldReads(part: seq<byte>, n: nat)
    requires |part| <= n
    ensures forall i :: 0 <= i < n ==>
              Padded(Upper(part), n)[i] ==
              if i < |part| then (if 0x61 <= part[i] <= 0x7A then part[i] - 0x20 else part[i]) else 0x20
  {
    hide Upper;
  }

  // ---- directories -----------------------------------------------------------------------------

  datatype Scan = Hit(clus: u32, size: u32, isDir: bool) | End | NoHit | Failed

  function EntryScan(bits: byte, e: seq<byte>, nm: seq<byte>): Scan
    requires |e| == 32
  {
    if e[0] == 0 then End
    else if e[0] == 0xE5 || e[11] / 8 % 2 == 1 then NoHit
    else if e[..11] != nm then NoHit
    else Hit((Le16(e, 26) + (if bits == 32 then Le16(e, 20) * 0x1_0000 else 0)), Le32(e, 28), e[11] / 16 % 2 == 1)
  }

  /** The entries of one sector from byte `at` on. */
  function SectorScan(bits: byte, d: seq<byte>, at: nat, nm: seq<byte>): Scan
    requires |d| == SECTOR && at % 32 == 0
    decreases SECTOR - at
  {
    if at + 32 > SECTOR then NoHit
    else
      var r := EntryScan(bits, d[at..at + 32], nm);
      if r.NoHit? then SectorScan(bits, d, at + 32, nm) else r
  }

  function SectorsScan(v: Volume, sec: u32, left: nat, nm: seq<byte>): Scan
    decreases left
  {
    if left == 0 then NoHit
    else
      var d := SectorOf(v, sec);
      if d.None? then Failed
      else
        var r := SectorScan(v.bits, d.value, 0, nm);
        if r.NoHit? then SectorsScan(v, Add32(sec, 1), left - 1, nm) else r
  }

  datatype Lookup = Entry(clus: u32, size: u32, isDir: bool) | Error(status: Status) | Endless

  /** The search of a directory's chain; `Endless` when more than `fuel` links are followed. */
  function DirScan(v: Volume, dirClus: u32, nm: seq<byte>, fuel: nat): Lookup
    decreases fuel
  {
    var r := if dirClus == 0 then SectorsScan(v, v.rootSec, v.rootSecs, nm)
             else SectorsScan(v, ClusterSector(v, dirClus), v.spc, nm);
    if r.Hit? then Entry(r.clus, r.size, r.isDir)
    else if r.Failed? then Error(EIO)
    else if r.End? || dirClus == 0 then Error(ENOENT)
    else
      var next := Next(v, dirClus);
      if next.None? then Error(EIO)
      else if next.value == 0 then Error(ENOENT)
      else if fuel == 0 then Endless
      else DirScan(v, next.value, nm, fuel - 1)
  }

  /** dir_lookup; `Endless` where it does not end (EndlessIff). */
  function DirLookup(v: Volume, dirClus: u32, want: seq<byte>): Lookup {
    var nm := Name83(want);
    if nm.None? then Error(ENOENT) else DirScan(v, dirClus, nm.value, v.nclus)
  }

  // ---- where the search ends -------------------------------------------------------------------

  /** The cluster the search goes on to behind `clus`, when nothing in `clus` stops it. */
  function Passed(v: Volume, clus: u32, nm: seq<byte>): Option<u32> {
    if clus != 0 && SectorsScan(v, ClusterSector(v, clus), v.spc, nm).NoHit? && Next(v, clus) != Some(0)
    then Next(v, clus) else None
  }

  ghost predicate Trail(v: Volume, cs: seq<u32>, nm: seq<byte>) {
    cs != [] && forall i :: 0 <= i < |cs| - 1 ==> Passed(v, cs[i], nm) == Some(cs[i + 1])
  }

  /** The directory's chain comes back to a cluster it has been at, and none of its clusters holds
      the name or the end of the directory. */
  ghost predicate LoopsPast(v: Volume, dir: u32, nm: seq<byte>) {
    exists cs: seq<u32> :: Returns(v, cs, nm) && cs[0] == dir && Distinct(cs)
  }

  /** A trail whose last cluster leads back into it. */
  ghost predicate Returns(v: Volume, cs: seq<u32>, nm: seq<byte>) {
    Trail(v, cs, nm) && Passed(v, cs[|cs| - 1], nm).Some? && Passed(v, cs[|cs| - 1], nm).value in cs
  }

  lemma ScanStep(v: Volume, dir: u32, nm: seq<byte>, fuel: nat)
    ensures var next := Passed(v, dir, nm);
            if next.None? then
              !DirScan(v, dir, nm, fuel).Endless? && forall more: nat :: DirScan(v, dir, nm, more) == DirScan(v, dir, nm, fuel)
            else
              2 <= next.value < v.nclus
              && DirScan(v, dir, nm, fuel) == if fuel == 0 then Endless else DirScan(v, next.value, nm, fuel - 1)
  {
    hide SectorsScan, Next;
    LinkIs(v, dir);
    forall more: nat
      ensures Passed(v, dir, nm).None? ==> DirScan(v, dir, nm, more) == DirScan(v, dir, nm, fuel)
    {
    }
  }

  /** A search that ends does not depend on how many links it was allowed. */
  lemma {:induction false} MoreTurnsSame(v: Volume, dirClus: u32, nm: seq<byte>, few: nat, many: nat)
    requires few <= many && !DirScan(v, dirClus, nm, few).Endless?
    ensures DirScan(v, dirClus, nm, many) == DirScan(v, dirClus, nm, few)
    decreases few
  {
    hide DirScan, Passed;
    ScanStep(v, dirClus, nm, few);
    ScanStep(v, dirClus, nm, many);
    var next := Passed(v, dirClus, nm);
    if next.Some? {
      MoreTurnsSame(v, next.value, nm, few - 1, many - 1);
    }
  }

  /** The search of a directory goes on forever exactly when its chain comes back on itself past the
      name, and as many links as the volume has clusters are enough to tell. */
  lemma EndlessIff(v: Volume, dir: u32, nm: seq<byte>)
    ensures DirScan(v, dir, nm, v.nclus).Endless? <==> LoopsPast(v, dir, nm)
    ensures LoopsPast(v, dir, nm) <==> forall fuel: nat :: DirScan(v, dir, nm, fuel).Endless?
  {
    hide DirScan, Passed;
    if DirScan(v, dir, nm, v.nclus).Endless? {
      TrailReturns(v, [dir], nm, v.nclus);
    }
    if LoopsPast(v, dir, nm) {
      var cs: seq<u32> :| Returns(v, cs, nm) && cs[0] == dir && Distinct(cs);
      forall fuel: nat
        ensures DirScan(v, dir, nm, fuel).Endless?
      {
        LoopIsEndless(v, cs, 0, nm, fuel);
      }
    }
  }

  /** From any cluster of a loop. */
  lemma {:induction false} LoopIsEndless(v: Volume, cs: seq<u32>, i: nat, nm: seq<byte>, fuel: nat)
    requires i < |cs|
    ensures Returns(v, cs, nm) ==> DirScan(v, cs[i], nm, fuel).Endless?
    decreases fuel
  {
    hide DirScan, Passed;
    if Returns(v, cs, nm) {
      ScanStep(v, cs[i], nm, fuel);
      assert i < |cs| - 1 ==> Passed(v, cs[i], nm) == Some(cs[i + 1]);
      assert i >= |cs| - 1 ==> cs[i] == cs[|cs| - 1];
      if fuel > 0 {
        var next := Passed(v, cs[i], nm).value;
        var j :| 0 <= j < |cs| && cs[j] == next;
        LoopIsEndless(v, cs, j, nm, fuel - 1);
      }
    }
  }

  /** A search longer than the volume has clusters has been somewhere twice. */
  lemma {:induction false} TrailReturns(v: Volume, cs: seq<u32>, nm: seq<byte>, fuel: nat)
    requires Trail(v, cs, nm) && Distinct(cs) && |cs| + fuel == v.nclus + 1
    requires forall i :: 1 <= i < |cs| ==> cs[i] < v.nclus
    requires DirScan(v, cs[|cs| - 1], nm, fuel).Endless?
    ensures LoopsPast(v, cs[0], nm)
    decreases fuel
  {
    hide DirScan, Passed;
    ScanStep(v, cs[|cs| - 1], nm, fuel);
    var next := Passed(v, cs[|cs| - 1], nm).value;
    if next in cs {
      assert Returns(v, cs, nm);
    } else {
      var longer := cs + [next];
      if fuel == 0 {
        var tail: seq<nat> := seq(|cs|, i requires 0 <= i < |cs| => longer[i + 1]);
        DistinctBound(tail, v.nclus);
      } else {
        TrailReturns(v, longer, nm, fuel - 1);
      }
    }
  }

  /** A chain that ends, or cannot be read on, is searched to an end. */
  lemma {:induction false} ChainThatEnds(v: Volume, cs: seq<u32>, nm: seq<byte>)
    requires cs != [] && Linked(v, cs) && Next(v, cs[|cs| - 1]) in {None, Some(0)}
    ensures !DirScan(v, cs[0], nm, |cs| - 1).Endless? && !LoopsPast(v, cs[0], nm)
    decreases |cs|
  {
    hide DirScan, Next, LoopsPast, Passed, Linked;
    EndlessIff(v, cs[0], nm);
    ScanStep(v, cs[0], nm, |cs| - 1);
    PassedIsNext(v, cs[0], nm);
    if |cs| > 1 {
      LinkedTail(v, cs);
      ChainThatEnds(v, cs[1..], nm);
    }
  }

  lemma PassedIsNext(v: Volume, clus: u32, nm: seq<byte>)
    ensures Passed(v, clus, nm).Some? ==> Passed(v, clus, nm) == Next(v, clus) && Next(v, clus) != Some(0)
  {
  }

  lemma LinkedTail(v: Volume, cs: seq<u32>)
    ensures Linked(v, cs) && |cs| > 1 ==> Next(v, cs[0]) == Some(cs[1]) && Linked(v, cs[1..])
  {
    hide Next;
  }

  /** A directory in its own next cluster, all of it deleted entries. */
  function LoopingDisk(): (disk: seq<byte>)
    ensures |disk| == 2 * SECTOR
  {
    [0, 0, 0, 0, 2, 0] + Zeros(506) + seq(SECTOR, _ => 0xE5)
  }

  /** There are such directories: every name but none is found in this one, ever. */
  lemma LoopingDirectory(nm: seq<byte>)
    ensures var v := Volume(LoopingDisk(), 0, SECTOR, 1, 0, 0, 0, 1, 3, 0, 16);
            OnDisk(v) && LoopsPast(v, 2, nm) && forall fuel: nat :: DirScan(v, 2, nm, fuel).Endless?
  {
    hide LoopingDisk, SectorScan, DirScan, FatEntry, FatWord;
    var v := Volume(LoopingDisk(), 0, SECTOR, 1, 0, 0, 0, 1, 3, 0, 16);
    LoopingSectors(v);
    var d := SectorOf(v, 1).value;
    AllDeleted(d, 0, nm);
    assert ClusterSector(v, 2) == 1 && SectorsScan(v, 2, 0, nm).NoHit?;
    assert Passed(v, 2, nm) == Some(2);
    assert Returns(v, [2], nm);
    EndlessIff(v, 2, nm);
  }

  lemma LoopingSectors(v: Volume)
    requires v == Volume(LoopingDisk(), 0, SECTOR, 1, 0, 0, 0, 1, 3, 0, 16)
    ensures FatEntry(v, 2) == Some(2)
    ensures SectorOf(v, 1).Some? && forall i :: 0 <= i < SECTOR ==> SectorOf(v, 1).value[i] == 0xE5
  {
    hide SectorOf;
    FatLoop(v.disk);
    SectorIs(v, 0);
    SectorIs(v, 1);
    assert FatByte(v, 4) == Some(2) && FatByte(v, 5) == Some(0);
  }

  lemma FatLoop(disk: seq<byte>)
    requires disk == LoopingDisk()
    ensures disk[0..SECTOR][4] == 2 && disk[0..SECTOR][5] == 0
    ensures var d := disk[SECTOR..SECTOR + SECTOR]; forall i :: 0 <= i < SECTOR ==> d[i] == 0xE5
  {
    var gone: seq<byte> := seq(SECTOR, _ => 0xE5);
    assert disk[SECTOR..SECTOR + SECTOR] == gone;
  }

  lemma {:induction false} AllDeleted(d: seq<byte>, at: nat, nm: seq<byte>)
    requires |d| == SECTOR && at % 32 == 0 && forall i :: 0 <= i < SECTOR ==> d[i] == 0xE5
    ensures SectorScan(16, d, at, nm).NoHit?
    decreases SECTOR - at
  {
    if at + 32 <= SECTOR {
      AllDeleted(d, at + 32, nm);
    }
  }

  // ---- a directory as its bytes ----------------------------------------------------------------

  /** A directory's bytes scanned entry by entry, sectors and clusters ignored. */
  function EntriesScan(bits: byte, bytes: seq<byte>, nm: seq<byte>): Scan
    decreases |bytes|
  {
    if |bytes| < 32 then NoHit
    else
      var r := EntryScan(bits, bytes[..32], nm);
      if r.NoHit? then EntriesScan(bits, bytes[32..], nm) else r
  }

  lemma {:induction false} EntriesScanAppend(bits: byte, a: seq<byte>, b: seq<byte>, nm: seq<byte>)
    requires |a| % 32 == 0
    ensures EntriesScan(bits, a + b, nm) ==
            var r := EntriesScan(bits, a, nm); if r.NoHit? then EntriesScan(bits, b, nm) else r
    decreases |a|
  {
    hide EntryScan;
    if a == [] {
      assert a + b == b;
    } else {
      assert (a + b)[..32] == a[..32] && (a + b)[32..] == a[32..] + b;
      EntriesScanAppend(bits, a[32..], b, nm);
    }
  }

  lemma {:induction false} SectorScanIsEntries(bits: byte, d: seq<byte>, at: nat, nm: seq<byte>)
    requires |d| == SECTOR && at % 32 == 0 && at <= SECTOR
    ensures SectorScan(bits, d, at, nm) == EntriesScan(bits, d[at..], nm)
    decreases SECTOR - at
  {
    hide EntryScan;
    if at < SECTOR {
      SectorScanIsEntries(bits, d, at + 32, nm);
      assert d[at..][..32] == d[at..at + 32] && d[at..][32..] == d[at + 32..];
    }
  }

  /** The search of consecutive sectors is the scan of their bytes. */
  lemma {:induction false} SectorsScanIsEntries(v: Volume, sec: u32, n: nat, nm: seq<byte>, at: nat)
    requires v.partLba + sec + n < WORD && at == (v.partLba + sec) * SECTOR && at + n * SECTOR <= |v.disk|
    ensures SectorsScan(v, sec, n, nm) == EntriesScan(v.bits, v.disk[at..at + n * SECTOR], nm)
    decreases n
  {
    hide SectorScan, EntriesScan, SectorsScan, SectorOf, Add32;
    SectorsStep(v, sec, n, nm);
    if n == 0 {
      NoEntries(v.bits, v.disk[at..at], nm);
    } else {
      var next, len := at + SECTOR, (n - 1) * SECTOR;
      var d, rest := v.disk[at..next], v.disk[next..next + len];
      SectorsScanIsEntries(v, sec + 1, n - 1, nm, next);
      SectorScanIsEntries(v.bits, d, 0, nm);
      EntriesScanAppend(v.bits, d, rest, nm);
      SliceSplits(v.disk, at, SECTOR, len);
    }
  }

  lemma SectorsStep(v: Volume, sec: u32, n: nat, nm: seq<byte>)
    requires v.partLba + sec + n < WORD && (v.partLba + sec + n) * SECTOR <= |v.disk|
    ensures n == 0 ==> SectorsScan(v, sec, n, nm) == NoHit
    ensures n > 0 ==>
              var at := (v.partLba + sec) * SECTOR;
              var r := SectorScan(v.bits, v.disk[at..at + SECTOR], 0, nm);
              SectorsScan(v, sec, n, nm) == if r.NoHit? then SectorsScan(v, sec + 1, n - 1, nm) else r
  {
    hide SectorScan, SectorOf, Add32;
    if n > 0 {
      SectorIn(v, sec);
    }
  }

  lemma SectorIn(v: Volume, sec: u32)
    requires v.partLba + sec + 1 < WORD && (v.partLba + sec + 1) * SECTOR <= |v.disk|
    ensures var at := (v.partLba + sec) * SECTOR;
            SectorOf(v, sec) == Some(v.disk[at..at + SECTOR]) && Add32(sec, 1) == sec + 1
  {
  }

  lemma SliceSplits(s: seq<byte>, at: nat, n: nat, m: nat)
    requires at + n + m <= |s|
    ensures s[at..at + n + m] == s[at..at + n] + s[at + n..at + n + m] && s[at..at + n][0..] == s[at..at + n]
  {
  }

  lemma NoEntries(bits: byte, bytes: seq<byte>, nm: seq<byte>)
    ensures |bytes| < 32 ==> EntriesScan(bits, bytes, nm) == NoHit
  {
  }

  /** The answer a scan of all of a directory's bytes gives. */
  function Answer(r: Scan): Lookup {
    if r.Hit? then Entry(r.clus, r.size, r.isDir) else Error(ENOENT)
  }

  /** A lookup in the fixed root is the scan of the root region. */
  lemma LookupInRoot(v: Volume, nm: seq<byte>, at: nat)
    requires v.partLba + v.rootSec + v.rootSecs < WORD
    requires at == (v.partLba + v.rootSec) * SECTOR && at + v.rootSecs * SECTOR <= |v.disk|
    ensures DirScan(v, 0, nm, v.nclus) == Answer(EntriesScan(v.bits, v.disk[at..at + v.rootSecs * SECTOR], nm))
  {
    hide SectorsScan, EntriesScan;
    SectorsScanIsEntries(v, v.rootSec, v.rootSecs, nm, at);
    NeverFails(v.bits, v.disk[at..at + v.rootSecs * SECTOR], nm);
  }

  lemma NeverFails(bits: byte, bytes: seq<byte>, nm: seq<byte>)
    ensures !EntriesScan(bits, bytes, nm).Failed?
    decreases |bytes|
  {
  }

  /** A lookup along a chain is the scan of what the chain holds. */
  lemma LookupInChain(v: Volume, cs: seq<u32>, nm: seq<byte>)
    requires OnDisk(v) && InRange(v, cs) && Linked(v, cs) && Ends(v, cs)
    ensures DirScan(v, cs[0], nm, v.nclus) == Answer(EntriesScan(v.bits, Contents(v, cs), nm))
  {
    hide DirScan, OnDisk, Next, LoopsPast, EntriesScan, Contents;
    ChainThatEnds(v, cs, nm);
    EndlessIff(v, cs[0], nm);
    ChainScan(v, cs, nm);
    if |cs| - 1 <= v.nclus {
      MoreTurnsSame(v, cs[0], nm, |cs| - 1, v.nclus);
    } else {
      MoreTurnsSame(v, cs[0], nm, v.nclus, |cs| - 1);
    }
  }

  lemma {:induction false} ChainScan(v: Volume, cs: seq<u32>, nm: seq<byte>)
    requires OnDisk(v) && InRange(v, cs) && Linked(v, cs) && Ends(v, cs)
    ensures DirScan(v, cs[0], nm, |cs| - 1) == Answer(EntriesScan(v.bits, Contents(v, cs), nm))
    decreases |cs|
  {
    hide OnDisk, Next, SectorsScan, EntriesScan, Start, Volume.ClusterBytes, Extent, ClusterSector;
    var here, rest := Extent(v.disk, Start(v, cs[0]), v.ClusterBytes()), cs[1..];
    ClusterScan(v, cs[0], nm);
    PartsTail(v, cs);
    EntriesScanAppend(v.bits, here, Contents(v, rest), nm);
    NeverFails(v.bits, here, nm);
    if |cs| > 1 {
      LinkedTail(v, cs);
      ChainScan(v, rest, nm);
    } else {
      NoEntries(v.bits, Contents(v, rest), nm);
    }
  }

  lemma ClusterScan(v: Volume, clus: u32, nm: seq<byte>)
    requires OnDisk(v) && 2 <= clus < v.nclus
    ensures SectorsScan(v, ClusterSector(v, clus), v.spc, nm) ==
            EntriesScan(v.bits, Extent(v.disk, Start(v, clus), v.ClusterBytes()), nm)
    ensures v.ClusterBytes() % 32 == 0
  {
    hide SectorsScan, EntriesScan;
    StartOnDisk(v, clus);
    BlockBound(clus - 2, v.nclus - 2, v.spc);
    SectorsScanIsEntries(v, ClusterSector(v, clus), v.spc, nm, Start(v, clus));
  }

  // ---- which entry that is ---------------------------------------------------------------------

  /** An entry a lookup of the name accepts: in use, no label or long name, and of that name. */
  predicate Matches(e: seq<byte>, nm: seq<byte>)
    requires |e| == 32
  {
    e[0] != 0 && e[0] != 0xE5 && e[11] / 8 % 2 == 0 && e[..11] == nm
  }

  function EntryAt(bytes: seq<byte>, k: nat): (e: seq<byte>)
    requires 32 * k + 32 <= |bytes|
    ensures |e| == 32
  {
    bytes[32 * k..32 * k + 32]
  }

  /** Entry `k` is the first of the name, and the directory does not end before it. */
  ghost predicate FirstMatch(bytes: seq<byte>, nm: seq<byte>, k: nat) {
    && 32 * k + 32 <= |bytes| && Matches(EntryAt(bytes, k), nm)
    && forall i :: 0 <= i < k ==> EntryAt(bytes, i)[0] != 0 && !Matches(EntryAt(bytes, i), nm)
  }

  /** The fields of an entry a lookup returns; only FAT32 uses the upper half of the cluster. */
  function Fields(bits: byte, e: seq<byte>): Lookup
    requires |e| == 32
  {
    Entry(Le16(e, 26) + (if bits == 32 then Le16(e, 20) * 0x1_0000 else 0), Le32(e, 28), e[11] / 16 % 2 == 1)
  }

  /** The scan finds the first match, and finds one whenever there is one. */
  lemma {:induction false} ScanFindsFirst(bits: byte, bytes: seq<byte>, nm: seq<byte>)
    ensures forall k: nat :: FirstMatch(bytes, nm, k) ==> Answer(EntriesScan(bits, bytes, nm)) == Fields(bits, EntryAt(bytes, k))
    ensures EntriesScan(bits, bytes, nm).Hit? <==> exists k: nat :: FirstMatch(bytes, nm, k)
    decreases |bytes|
  {
    hide Matches;
    if |bytes| >= 32 {
      var rest := bytes[32..];
      ScanFindsFirst(bits, rest, nm);
      assert EntryAt(bytes, 0) == bytes[..32];
      FirstEntry(bits, bytes, nm);
      forall k: nat
        ensures k > 0 ==> (FirstMatch(bytes, nm, k) <==>
                             bytes[0] != 0 && !Matches(EntryAt(bytes, 0), nm) && FirstMatch(rest, nm, k - 1))
        ensures FirstMatch(bytes, nm, k) && k > 0 ==> EntryAt(bytes, k) == EntryAt(rest, k - 1)
      {
        if k > 0 {
          MatchInRest(bytes, nm, k);
        }
      }
      if EntriesScan(bits, rest, nm).Hit? {
        var j: nat :| FirstMatch(rest, nm, j);
        assert bytes[0] != 0 && !Matches(EntryAt(bytes, 0), nm) ==> FirstMatch(bytes, nm, j + 1);
      }
      assert Matches(EntryAt(bytes, 0), nm) <==> FirstMatch(bytes, nm, 0);
    }
  }

  lemma FirstEntry(bits: byte, bytes: seq<byte>, nm: seq<byte>)
    requires |bytes| >= 32
    ensures var e, r := bytes[..32], EntriesScan(bits, bytes, nm);
            && (Matches(e, nm) ==> r.Hit? && Answer(r) == Fields(bits, e))
            && (!Matches(e, nm) ==> r == if e[0] == 0 then End else EntriesScan(bits, bytes[32..], nm))
  {
  }

  lemma MatchInRest(bytes: seq<byte>, nm: seq<byte>, k: nat)
    requires |bytes| >= 32 && k > 0
    ensures FirstMatch(bytes, nm, k) <==>
            bytes[0] != 0 && !Matches(EntryAt(bytes, 0), nm) && FirstMatch(bytes[32..], nm, k - 1)
    ensures 32 * k + 32 <= |bytes| ==> EntryAt(bytes, k) == EntryAt(bytes[32..], k - 1)
  {
    hide Matches;
    var rest := bytes[32..];
    assert forall i: nat :: i > 0 && 32 * i + 32 <= |bytes| ==> EntryAt(bytes, i) == EntryAt(rest, i - 1);
    if FirstMatch(rest, nm, k - 1) && bytes[0] != 0 && !Matches(EntryAt(bytes, 0), nm) {
      forall i | 0 <= i < k
        ensures EntryAt(bytes, i)[0] != 0 && !Matches(EntryAt(bytes, i), nm)
      {
        if i > 0 {
          assert EntryAt(bytes, i) == EntryAt(rest, i - 1);
        }
      }
    }
    if FirstMatch(bytes, nm, k) {
      forall i | 0 <= i < k - 1
        ensures EntryAt(rest, i)[0] != 0 && !Matches(EntryAt(rest, i), nm)
      {
        assert EntryAt(bytes, i + 1) == EntryAt(rest, i);
      }
    }
  }

  /** A lookup in a directory of clusters returns the first live entry of the name in what the chain
      holds, and ENOENT exactly when there is none. */
  lemma LookupFindsFirst(v: Volume, cs: seq<u32>, want: seq<byte>)
    requires OnDisk(v) && InRange(v, cs) && Linked(v, cs) && Ends(v, cs)
    ensures var nm, all, l := Name83(want), Contents(v, cs), DirLookup(v, cs[0], want);
            && (l == Error(ENOENT) <==> nm.None? || forall k: nat :: !FirstMatch(all, nm.value, k))
            && (nm.Some? ==> forall k: nat :: FirstMatch(all, nm.value, k) ==> l == Fields(v.bits, EntryAt(all, k)))
  {
    hide OnDisk, InRange, Linked, Ends, Contents, Name83, DirScan, EntriesScan, FirstMatch;
    var nm := Name83(want);
    if nm.Some? {
      LookupInChain(v, cs, nm.value);
      ScanFindsFirst(v.bits, Contents(v, cs), nm.value);
    }
  }

  /** The entry at byte `b` is one a lookup of the name takes: not deleted (0xE5), no label or long name
      (attribute 0x08), and of that name. */
  ghost predicate Takes(bytes: seq<byte>, nm: seq<byte>, b: nat)
    requires b + 32 <= |bytes| && |nm| == 11
  {
    bytes[b] != 0 && bytes[b] != 0xE5 && bytes[b + 11] / 8 % 2 == 0 && bytes[b..b + 11] == nm
  }

  /** What a lookup makes of the entry at byte `b`: its cluster, in FAT32 with two more bytes, its size,
      and attribute 0x10 for a directory. */
  ghost function EntryIn(bits: byte, bytes: seq<byte>, b: nat): Lookup
    requires b + 32 <= |bytes|
  {
    Entry(bytes[b + 26] as int + 0x100 * (bytes[b + 27] as int)
          + (if bits == 32 then 0x1_0000 * (bytes[b + 20] as int) + 0x100_0000 * (bytes[b + 21] as int) else 0),
          bytes[b + 28] as int + 0x100 * (bytes[b + 29] as int)
          + 0x1_0000 * (bytes[b + 30] as int) + 0x100_0000 * (bytes[b + 31] as int),
          bytes[b + 11] / 16 % 2 == 1)
  }

  /** What a scan comes to at the k-th entry, when none before it ends the directory (byte 0) or is
      taken. */
  lemma {:induction false} ScanReads(bits: byte, bytes: seq<byte>, nm: seq<byte>, k: nat)
    requires 32 * k + 32 <= |bytes| && |nm| == 11
    requires forall i :: 0 <= i < k ==> bytes[32 * i] != 0 && !Takes(bytes, nm, 32 * i)
    ensures Answer(EntriesScan(bits, bytes, nm)) ==
            if bytes[32 * k] == 0 then Error(ENOENT)
            else if Takes(bytes, nm, 32 * k) then EntryIn(bits, bytes, 32 * k)
            else Answer(EntriesScan(bits, bytes[32 * k + 32..], nm))
    decreases k
  {
    hide EntriesScan, Takes, EntryIn;
    EntryReads(bits, bytes, nm);
    if k > 0 {
      var rest := bytes[32..];
      assert bytes[32 * 0] != 0 && !Takes(bytes, nm, 32 * 0);
      forall i | 0 <= i < k - 1
        ensures rest[32 * i] != 0 && !Takes(rest, nm, 32 * i)
      {
        assert bytes[32 * (i + 1)] != 0 && !Takes(bytes, nm, 32 * (i + 1));
        OneOn(bits, bytes, nm, 32 * i);
      }
      ScanReads(bits, rest, nm, k - 1);
      OneOn(bits, bytes, nm, 32 * (k - 1));
    }
  }

  /** An entry seen from the one before it. */
  lemma OneOn(bits: byte, bytes: seq<byte>, nm: seq<byte>, b: nat)
    requires b + 64 <= |bytes| && |nm| == 11
    ensures var rest := bytes[32..];
            && rest[b] == bytes[b + 32] && rest[b + 32..] == bytes[b + 64..]
            && Takes(rest, nm, b) == Takes(bytes, nm, b + 32) && EntryIn(bits, rest, b) == EntryIn(bits, bytes, b + 32)
  {
    assert bytes[32..][b..b + 11] == bytes[b + 32..b + 32 + 11];
  }

  lemma EntryReads(bits: byte, bytes: seq<byte>, nm: seq<byte>)
    requires |bytes| >= 32 && |nm| == 11
    ensures Answer(EntriesScan(bits, bytes, nm)) ==
            if bytes[0] == 0 then Error(ENOENT)
            else if Takes(bytes, nm, 0) then EntryIn(bits, bytes, 0)
            else Answer(EntriesScan(bits, bytes[32..], nm))
  {
    var e := bytes[..32];
    assert e[..11] == bytes[0..11];
    FirstEntry(bits, bytes, nm);
  }

  // ---- the partition and its geometry ----------------------------------------------------------

  datatype Partition = Partition(lba: u32, sectors: u32) | NoPartition(status: Status)

  predicate LooksLikeBpb(s: seq<byte>)
    requires |s| == SECTOR
  {
    && (s[0] == 0xEB || s[0] == 0xE9)
    && 512 <= Le16(s, 11) <= 4096
    && s[13] in {1, 2, 4, 8, 16, 32, 64, 128}
  }

  function Total(b: seq<byte>): u32
    requires |b| == SECTOR
  {
    if Le16(b, 19) != 0 then Le16(b, 19) else Le32(b, 32)
  }

  /** The part-th nonempty, non-extended MBR slot from slot `i` on; `n` were passed before. */
  function Slot(s: seq<byte>, i: nat, n: nat, part: u32): Partition
    requires |s| == SECTOR && i <= 4
    decreases 4 - i
  {
    if i == 4 then NoPartition(ENODEV)
    else
      var e := 0x1BE + 16 * i;
      if s[e + 4] == 0 || s[e + 4] == 0x05 || s[e + 4] == 0x0F then Slot(s, i + 1, n, part)
      else if n + 1 == part then Partition(Le32(s, e + 8), Le32(s, e + 12))
      else Slot(s, i + 1, n + 1, part)
  }

  function FindPartition(disk: seq<byte>, part: u32): Partition {
    var s0 := Read(disk, 0, SECTOR);
    if s0.None? then NoPartition(EIO)
    else if part == 0 then Partition(0, NO_SECTOR)
    else if s0.value[510] != 0x55 || s0.value[511] != 0xAA then NoPartition(ENODEV)
    else if LooksLikeBpb(s0.value) then
      if part == 1 then Partition(0, Total(s0.value)) else NoPartition(ENODEV)
    else Slot(s0.value, 0, 0, part)
  }

  /** fat_open's reading of a boot sector.  The sums are ULONGs. */
  function Geometry(disk: seq<byte>, lba: u32, b: seq<byte>): Option<Volume>
    requires |b| == SECTOR
  {
    var bps, spc := Le16(b, 11), b[13];
    var reserved, nfats, rootEnts := Le16(b, 14), b[16], Le16(b, 17);
    var total := Total(b);
    var fatsz := if Le16(b, 22) != 0 then Le16(b, 22) else Le32(b, 36);
    if bps != SECTOR || spc == 0 || nfats == 0 || fatsz == 0 || total == 0 then None
    else
      var fat32 := Le16(b, 22) == 0;
      Some(VolumeOf(disk, lba, spc, reserved, Product(nfats, fatsz), rootEnts, total, fat32,
                    if fat32 then Le32(b, 44) else 0))
  }

  function Product(a: nat, b: nat): nat { a * b }

  function Quotient(a: u32, b: nat): u32
    requires b > 0
  {
    DivMod(a, b);
    MulMono(1, b, a / b);
    a / b
  }

  function VolumeOf(disk: seq<byte>, lba: u32, spc: byte, reserved: u16, fats: nat, rootEnts: u16, total: u32,
                    fat32: bool, rootClus: u32): Volume
    requires spc > 0
  {
    var rootSec := (reserved + fats) % WORD;
    var rootSecs := (rootEnts * 32 + SECTOR - 1) / SECTOR;
    var dataSec := Add32(rootSec, rootSecs);
    var nclus := Add32(Quotient(Sub32(total, dataSec), spc), 2);
    Volume(disk, lba, SECTOR, spc, reserved, rootSec, rootSecs, dataSec, nclus, rootClus,
           if fat32 then 32 else if nclus < 4087 then 12 else 16)
  }

  /** The volume fat_open works on, or why there is none. */
  datatype Mounted = Mounted(vol: Volume) | Refused(status: Status)

  function Mount(disk: seq<byte>, part: u32): Mounted {
    match FindPartition(disk, part)
    case NoPartition(s) => Refused(s)
    case Partition(lba, _) =>
      var b := Read(disk, lba * SECTOR, SECTOR);
      if b.None? then Refused(EIO)
      else
        var v := Geometry(disk, lba, b.value);
        if v.None? then Refused(EIO) else Mounted(v.value)
  }

  // ---- which partition that is -------------------------------------------------------------------

  /** The slots before `i` that are neither empty nor an extended container. */
  ghost function UsedSlots(s: seq<byte>, i: nat): set<nat>
    requires |s| >= SECTOR && i <= 4
  {
    set j: nat | j < i && s[0x1C2 + 16 * j] !in {0x00, 0x05, 0x0F}
  }

  lemma UsedSlotsNext(s: seq<byte>, i: nat)
    requires |s| >= SECTOR && i < 4
    ensures UsedSlots(s, 0) == {}
    ensures |UsedSlots(s, i + 1)| == |UsedSlots(s, i)| + if s[0x1C2 + 16 * i] !in {0x00, 0x05, 0x0F} then 1 else 0
  {
    var now, next := UsedSlots(s, i), UsedSlots(s, i + 1);
    assert UsedSlots(s, 0) == {};
    assert i !in now;
    if s[0x1C2 + 16 * i] !in {0x00, 0x05, 0x0F} {
      assert next == now + {i};
      assert |now + {i}| == |now| + 1;
    } else {
      assert next == now;
    }
  }

  lemma {:induction false} SlotIs(s: seq<byte>, i: nat, part: u32)
    requires |s| == SECTOR && i <= 4 && |UsedSlots(s, i)| < part
    ensures forall k :: i <= k < 4 && s[0x1C2 + 16 * k] !in {0x00, 0x05, 0x0F} && |UsedSlots(s, k)| == part - 1 ==>
              Slot(s, i, |UsedSlots(s, i)|, part) == Partition(Le32(s, 0x1C6 + 16 * k), Le32(s, 0x1CA + 16 * k))
    ensures (forall k :: i <= k < 4 && s[0x1C2 + 16 * k] !in {0x00, 0x05, 0x0F} ==> |UsedSlots(s, k)| != part - 1) ==>
              Slot(s, i, |UsedSlots(s, i)|, part) == NoPartition(ENODEV)
    decreases 4 - i
  {
    hide UsedSlots, Le32;
    if i < 4 {
      UsedSlotsNext(s, i);
      if |UsedSlots(s, i + 1)| < part {
        SlotIs(s, i + 1, part);
      } else {
        UsedSlotsGrow(s, i);
      }
    }
  }

  lemma UsedSlotsGrow(s: seq<byte>, i: nat)
    requires |s| >= SECTOR && i < 4 && s[0x1C2 + 16 * i] !in {0x00, 0x05, 0x0F}
    ensures forall k :: i < k < 4 ==> |UsedSlots(s, k)| > |UsedSlots(s, i)|
  {
    hide UsedSlots;
    UsedSlotsNext(s, i);
    if i + 1 < 4 {
      UsedSlotsNext(s, i + 1);
    }
    if i + 2 < 4 {
      UsedSlotsNext(s, i + 2);
    }
  }

  /** A first sector that is a boot sector: a jump, a plausible sector size and a power of two. */
  ghost predicate IsBootSector(disk: seq<byte>)
    requires |disk| >= SECTOR
  {
    && (disk[0] == 0xEB || disk[0] == 0xE9)
    && 512 <= disk[11] as int + 0x100 * (disk[12] as int) <= 4096
    && (exists n :: 0 <= n < 8 && disk[13] as int == [1, 2, 4, 8, 16, 32, 64, 128][n])
  }

  /** On a disk with a partition table, partition `part` is the slot with part - 1 used ones before it,
      from its start and for its length in little-endian sectors, and there is none without such a
      slot. */
  lemma PartitionIsSlot(disk: seq<byte>, part: u32)
    requires |disk| >= SECTOR && part > 0 && disk[510] == 0x55 && disk[511] == 0xAA && !IsBootSector(disk)
    ensures forall k :: 0 <= k < 4 && disk[0x1C2 + 16 * k] !in {0x00, 0x05, 0x0F} && |UsedSlots(disk, k)| == part - 1 ==>
              FindPartition(disk, part) ==
              Partition(disk[0x1C6 + 16 * k] as int + 0x100 * (disk[0x1C7 + 16 * k] as int)
                        + 0x1_0000 * (disk[0x1C8 + 16 * k] as int) + 0x100_0000 * (disk[0x1C9 + 16 * k] as int),
                        disk[0x1CA + 16 * k] as int + 0x100 * (disk[0x1CB + 16 * k] as int)
                        + 0x1_0000 * (disk[0x1CC + 16 * k] as int) + 0x100_0000 * (disk[0x1CD + 16 * k] as int))
    ensures (forall k :: 0 <= k < 4 && disk[0x1C2 + 16 * k] !in {0x00, 0x05, 0x0F} ==> |UsedSlots(disk, k)| != part - 1) ==>
              FindPartition(disk, part) == NoPartition(ENODEV)
  {
    var s := disk[0..SECTOR];
    assert forall i :: 0 <= i < SECTOR ==> s[i] == disk[i];
    BootSectorIs(disk, s);
    UsedSlotsNext(s, 0);
    SlotIs(s, 0, part);
    forall k | 0 <= k < 4
      ensures UsedSlots(s, k) == UsedSlots(disk, k)
    {
    }
    hide UsedSlots, Slot, LooksLikeBpb;
    FindIsSlot(disk, s, part);
  }

  lemma FindIsSlot(disk: seq<byte>, s: seq<byte>, part: u32)
    requires |disk| >= SECTOR && s == disk[0..SECTOR] && part > 0 && s[510] == 0x55 && s[511] == 0xAA && !LooksLikeBpb(s)
    ensures FindPartition(disk, part) == Slot(s, 0, 0, part)
  {
    hide Slot, LooksLikeBpb;
  }

  lemma BootSectorIs(disk: seq<byte>, s: seq<byte>)
    requires |disk| >= SECTOR && s == disk[0..SECTOR]
    ensures LooksLikeBpb(s) <==> IsBootSector(disk)
  {
    assert s[0] == disk[0] && s[11] == disk[11] && s[12] == disk[12] && s[13] == disk[13];
    var powers := [1, 2, 4, 8, 16, 32, 64, 128];
    assert powers[0] == 1 && powers[1] == 2 && powers[2] == 4 && powers[3] == 8;
    assert powers[4] == 16 && powers[5] == 32 && powers[6] == 64 && powers[7] == 128;
  }

  /** Partition 0 is the disk; a boot sector is partition 1 of its disk and the only one; without the
      mark 0x55 0xAA there is none. */
  lemma OtherPartitions(disk: seq<byte>, part: u32)
    requires |disk| >= SECTOR
    ensures part == 0 ==> FindPartition(disk, part) == Partition(0, 0xFFFF_FFFF)
    ensures part > 0 && !(disk[510] == 0x55 && disk[511] == 0xAA) ==> FindPartition(disk, part) == NoPartition(ENODEV)
    ensures part > 0 && disk[510] == 0x55 && disk[511] == 0xAA && IsBootSector(disk) ==>
              FindPartition(disk, part) ==
              if part > 1 then NoPartition(ENODEV)
              else Partition(0, if Le16(disk, 19) != 0 then Le16(disk, 19) else Le32(disk, 32))
  {
    var s := disk[0..SECTOR];
    BootSectorIs(disk, s);
    assert s[510] == disk[510] && s[511] == disk[511];
    assert Le16(s, 19) == Le16(disk, 19) && Le32(s, 32) == Le32(disk, 32);
    hide LooksLikeBpb, IsBootSector, Le16, Le32;
  }

  /** What fat_open takes a boot sector for, field by field, when the regions it describes, up to the
      data at `data`, fit the size it gives; `n` is two more than the clusters behind them. */
  lemma GeometryReads(disk: seq<byte>, lba: u32, b: seq<byte>, fat: u32, total: u32, data: u32, n: u32)
    requires |b| == SECTOR
    requires fat == (if Le16(b, 22) != 0 then Le16(b, 22) else Le32(b, 36))
    requires total == (if Le16(b, 19) != 0 then Le16(b, 19) else Le32(b, 32))
    requires data == Le16(b, 14) + b[16] * fat + (Le16(b, 17) + 15) / 16
    requires b[13] > 0 ==> data <= total && n == (total - data) / b[13] + 2
    ensures var g := Geometry(disk, lba, b);
            && (g.None? <==> Le16(b, 11) != 512 || b[13] == 0 || b[16] == 0 || fat == 0 || total == 0)
            && (g.Some? ==>
                  g.value == Volume(disk, lba, 512, b[13], Le16(b, 14), Le16(b, 14) + b[16] * fat, (Le16(b, 17) + 15) / 16, data, n,
                                    if Le16(b, 22) != 0 then 0 else Le32(b, 44),
                                    if Le16(b, 22) == 0 then 32 else if n < 4087 then 12 else 16))
  {
    hide Le16, Le32, VolumeOf, Product;
    ProductIs(b[16], fat);
    if b[13] > 0 {
      VolumeIs(disk, lba, b[13], Le16(b, 14), b[16] * fat, Le16(b, 17), total, Le16(b, 22) == 0,
               if Le16(b, 22) != 0 then 0 else Le32(b, 44), data, n);
    }
  }

  lemma ProductIs(a: nat, b: nat)
    ensures Product(a, b) == a * b >= 0
  {
  }

  lemma VolumeIs(disk: seq<byte>, lba: u32, spc: byte, reserved: u16, fats: nat, rootEnts: u16, total: u32,
                 fat32: bool, rootClus: u32, data: u32, n: u32)
    requires spc > 0 && data == reserved + fats + (rootEnts + 15) / 16 <= total && n == (total - data) / spc + 2
    ensures VolumeOf(disk, lba, spc, reserved, fats, rootEnts, total, fat32, rootClus) ==
            Volume(disk, lba, 512, spc, reserved, reserved + fats, (rootEnts + 15) / 16, data, n, rootClus,
                   if fat32 then 32 else if n < 4087 then 12 else 16)
  {
    assert Quotient(total - data, spc) == n - 2;
    hide Add32, Sub32, Quotient;
    assert (rootEnts * 32 + SECTOR - 1) / SECTOR == (rootEnts + 15) / 16;
    assert (reserved + fats) % WORD == reserved + fats;
    Sums(reserved + fats, (rootEnts + 15) / 16);
    Sums(n - 2, 2);
    Differences(total, data);
  }

  lemma Sums(a: u32, b: u32)
    ensures a + b < WORD ==> Add32(a, b) == a + b
  {
  }

  lemma Differences(a: u32, b: u32)
    ensures b <= a ==> Sub32(a, b) == a - b
  {
  }

  // ---- paths -----------------------------------------------------------------------------------

  function SkipSlashes(p: seq<byte>): (r: seq<byte>)
    ensures |r| <= |p| && (r != [] ==> r[0] != BACKSLASH)
  {
    if p != [] && p[0] == BACKSLASH then SkipSlashes(p[1..]) else p
  }

  /** The length of the next component, at most what the buffer takes. */
  function ComponentLength(p: seq<byte>, n: nat): (k: nat)
    ensures k <= |p|
    ensures n < COMPONENT_MAX && p != [] && p[0] != BACKSLASH ==> k > 0
  {
    if p == [] || p[0] == BACKSLASH || n >= COMPONENT_MAX then 0 else 1 + ComponentLength(p[1..], n + 1)
  }

  /** The names a path is made of, as they are looked up. */
  function Components(path: seq<byte>): seq<seq<byte>>
    decreases |path|
  {
    var p := SkipSlashes(path);
    if p == [] then []
    else
      var k := ComponentLength(p, 0);
      [p[..k]] + Components(p[k..])
  }

  function Slashes(n: nat): (s: seq<byte>)
    ensures |s| == n && forall i :: 0 <= i < n ==> s[i] == 0x5C
  {
    seq(n, _ => 0x5C)
  }

  /** The next name of a path is what stands behind any number of backslashes, up to the next one, the
      path's end or its 63rd character; backslashes alone name nothing. */
  lemma ComponentsAre(n: nat, name: seq<byte>, rest: seq<byte>)
    ensures Components(Slashes(n)) == []
    ensures 1 <= |name| <= 63 && 0x5C !in name && (rest == [] || rest[0] == 0x5C || |name| == 63) ==>
              Components(Slashes(n) + name + rest) == [name] + Components(rest)
  {
    hide SkipSlashes, ComponentLength, Components;
    SlashesAreSkipped(n, []);
    assert Slashes(n) + [] == Slashes(n);
    ComponentsStep(Slashes(n));
    if 1 <= |name| <= 63 && 0x5C !in name && (rest == [] || rest[0] == 0x5C || |name| == 63) {
      var p := name + rest;
      assert Slashes(n) + name + rest == Slashes(n) + p;
      SlashesAreSkipped(n, p);
      LengthOfComponent(name, rest, 0);
      ComponentsStep(Slashes(n) + p);
      assert p[..|name|] == name && p[|name|..] == rest;
    }
  }

  lemma {:induction false} SlashesAreSkipped(n: nat, p: seq<byte>)
    requires p == [] || p[0] != 0x5C
    ensures SkipSlashes(Slashes(n) + p) == p
  {
    if n > 0 {
      assert (Slashes(n) + p)[1..] == Slashes(n - 1) + p;
      SlashesAreSkipped(n - 1, p);
    } else {
      assert Slashes(n) + p == p;
    }
  }

  lemma {:induction false} LengthOfComponent(name: seq<byte>, rest: seq<byte>, n: nat)
    requires 0x5C !in name && n + |name| <= 63 && (rest == [] || rest[0] == 0x5C || n + |name| == 63)
    ensures ComponentLength(name + rest, n) == |name|
    decreases |name|
  {
    if name == [] {
      assert name + rest == rest;
    } else {
      assert (name + rest)[0] == name[0] && (name + rest)[1..] == name[1..] + rest;
      LengthOfComponent(name[1..], rest, n + 1);
    }
  }

  lemma ComponentsStep(path: seq<byte>)
    ensures var p := SkipSlashes(path);
            Components(path) == if p == [] then [] else [p[..ComponentLength(p, 0)]] + Components(p[ComponentLength(p, 0)..])
    ensures SkipSlashes([]) == []
  {
  }

  function Root(v: Volume): Lookup { Entry(v.rootClus, 0, true) }

  /** One name further from what was found so far. */
  function Enter(v: Volume, at: Lookup, name: seq<byte>): Lookup {
    if !at.Entry? then at
    else if !at.isDir then Error(ENOTDIR)
    else DirLookup(v, at.clus, name)
  }

  /** What names lead to from `at`. */
  function Resolve(v: Volume, at: Lookup, names: seq<seq<byte>>): Lookup {
    if names == [] then at else Enter(v, Resolve(v, at, names[..|names| - 1]), names[|names| - 1])
  }

  datatype Opened = File(vol: Volume, first: u32, size: u32) | OpenError(status: Status) | OpenEndless

  function Walk(v: Volume, path: seq<byte>): Opened {
    match Resolve(v, Root(v), Components(path))
    case Error(s) => OpenError(s)
    case Endless => OpenEndless
    case Entry(c, n, d) => if d then OpenError(EISDIR) else File(v, c, n)
  }

  function Open(disk: seq<byte>, part: u32, path: seq<byte>): Opened {
    match Mount(disk, part)
    case Refused(s) => OpenError(s)
    case Mounted(v) => Walk(v, path)
  }

  /** What opening a path comes to, name by name: a file on the way is no directory, a directory at the
      end no file, and the path of no names is the root directory. */
  lemma WalkAnswers(v: Volume, path: seq<byte>, front: seq<seq<byte>>, name: seq<byte>)
    ensures Components(path) == [] ==> Walk(v, path) == OpenError(EISDIR)
    ensures Components(path) == front + [name] ==>
              var at, w := Resolve(v, Entry(v.rootClus, 0, true), front), Walk(v, path);
              var found := if at.Entry? && at.isDir then DirLookup(v, at.clus, name) else at;
              if found.Error? then w == OpenError(found.status)
              else if found.Endless? then w == OpenEndless
              else if !at.isDir then w == OpenError(ENOTDIR)
              else if found.isDir then w == OpenError(EISDIR)
              else w == File(v, found.clus, found.size)
  {
    hide Components, DirLookup;
    var names := front + [name];
    assert names[..|names| - 1] == front && names[|names| - 1] == name;
    assert Resolve(v, Root(v), []) == Root(v);
  }

  /** An outcome other than an entry stays. */
  lemma {:induction false} ResolveStays(v: Volume, at: Lookup, names: seq<seq<byte>>, k: nat)
    requires k <= |names| && !Resolve(v, at, names[..k]).Entry?
    ensures Resolve(v, at, names) == Resolve(v, at, names[..k])
    decreases |names|
  {
    hide Enter;
    if k == |names| {
      assert names[..k] == names;
    } else {
      var front := names[..|names| - 1];
      assert front[..k] == names[..k];
      ResolveStays(v, at, front, k);
      EnterStays(v, Resolve(v, at, front), names[|names| - 1]);
    }
  }

  lemma EnterStays(v: Volume, at: Lookup, name: seq<byte>)
    ensures !at.Entry? ==> Enter(v, at, name) == at
  {
  }

  /** The first name can be entered by itself. */
  lemma {:induction false} ResolveFirst(v: Volume, at: Lookup, name: seq<byte>, names: seq<seq<byte>>)
    ensures Resolve(v, at, [name] + names) == Resolve(v, Enter(v, at, name), names)
    decreases |names|
  {
    hide Enter;
    var all := [name] + names;
    if names == [] {
      assert all[..0] == [] && Resolve(v, at, []) == at;
    } else {
      assert all[..|all| - 1] == [name] + names[..|names| - 1];
      ResolveFirst(v, at, name, names[..|names| - 1]);
    }
  }

  // ---- which paths are followed forever --------------------------------------------------------

  ghost predicate LookupLoops(v: Volume, dir: u32, want: seq<byte>) {
    Name83(want).Some? && LoopsPast(v, dir, Name83(want).value)
  }

  /** The names before the k-th lead to a directory whose chain loops past the k-th. */
  ghost predicate PathLoops(v: Volume, at: Lookup, names: seq<seq<byte>>) {
    exists k: nat :: k < |names| && LoopsAt(v, Resolve(v, at, names[..k]), names[k])
  }

  ghost predicate LoopsAt(v: Volume, dir: Lookup, name: seq<byte>) {
    dir.Entry? && dir.isDir && LookupLoops(v, dir.clus, name)
  }

  lemma EnterEndlessIff(v: Volume, at: Lookup, name: seq<byte>)
    ensures Enter(v, at, name).Endless? <==> at.Endless? || LoopsAt(v, at, name)
  {
    hide DirScan, Name83, LoopsPast;
    if at.Entry? && Name83(name).Some? {
      EndlessIff(v, at.clus, Name83(name).value);
    }
  }

  /** Following a path never ends exactly when some directory on it loops past the name looked for in
      it. */
  lemma {:induction false} PathEndlessIff(v: Volume, at: Lookup, names: seq<seq<byte>>)
    requires at.Entry?
    ensures Resolve(v, at, names).Endless? <==> PathLoops(v, at, names)
    decreases |names|
  {
    hide Enter, LoopsAt;
    if names != [] {
      var n := |names| - 1;
      var front := names[..n];
      PathEndlessIff(v, at, front);
      EnterEndlessIff(v, Resolve(v, at, front), names[n]);
      assert forall k: nat :: k <= n ==> front[..k] == names[..k];
    }
  }

  // ---- the routines themselves -----------------------------------------------------------------

  /** dir_lookup's loop over one sector. */
  method SearchSector(bits: byte, d: seq<byte>, nm: seq<byte>) returns (r: Scan)
    requires |d| == SECTOR
    ensures r == SectorScan(bits, d, 0, nm)
  {
    hide EntryScan;
    var at := 0;
    while at + 32 <= SECTOR
      invariant at % 32 == 0 && at <= SECTOR && SectorScan(bits, d, 0, nm) == SectorScan(bits, d, at, nm)
    {
      r := EntryScan(bits, d[at..at + 32], nm);
      if !r.NoHit? {
        return;
      }
      at := at + 32;
    }
    r := NoHit;
  }

  /** Its loop over consecutive sectors, through the cache. */
  method SearchSectors(ff: FatFile, first: u32, n: nat, nm: seq<byte>) returns (r: Scan)
    requires ff.CacheValid() && ff.Cached()
    modifies ff`cacheSec, ff`cache
    ensures ff.CacheValid() && (r.NoHit? || r.Hit? ==> ff.Cached())
    ensures r == SectorsScan(ff.vol, first, n, nm)
  {
    hide SectorScan, SectorOf;
    var sec, left := first, n;
    while left > 0
      invariant ff.CacheValid() && ff.Cached()
      invariant SectorsScan(ff.vol, first, n, nm) == SectorsScan(ff.vol, sec, left, nm)
      decreases left
    {
      var d := ff.PartSector(sec);
      if d.None? {
        return Failed;
      }
      r := SearchSector(ff.vol.bits, d.value, nm);
      if !r.NoHit? {
        return;
      }
      sec, left := Add32(sec, 1), left - 1;
    }
    r := NoHit;
  }

  /** dir_lookup, on every directory but those it follows forever. */
  method SearchDirectory(ff: FatFile, dir: u32, want: seq<byte>) returns (r: Lookup)
    requires ff.CacheValid() && ff.Cached() && ff.vol.fatSec < 0x1_0000
    requires !LookupLoops(ff.vol, dir, want)
    modifies ff`cacheSec, ff`cache
    ensures ff.CacheValid() && (r.Entry? ==> ff.Cached())
    ensures r == DirLookup(ff.vol, dir, want)
  {
    hide Name83, SectorsScan, Next, LoopsPast;
    var nm := MakeName83(want);
    if nm.None? {
      return Error(ENOENT);
    }
    EndlessIff(ff.vol, dir, nm.value);
    var clus := dir;
    var sec: u32 := if dir != 0 then ClusterSector(ff.vol, dir) else ff.vol.rootSec;
    var left: nat := if dir != 0 then ff.vol.spc else ff.vol.rootSecs;
    ghost var turns: nat := ff.vol.nclus;
    while true
      invariant ff.CacheValid() && ff.Cached() && (clus == 0 ==> dir == 0)
      invariant sec == if clus != 0 then ClusterSector(ff.vol, clus) else ff.vol.rootSec
      invariant left == if clus != 0 then ff.vol.spc else ff.vol.rootSecs
      invariant DirScan(ff.vol, dir, nm.value, ff.vol.nclus) == DirScan(ff.vol, clus, nm.value, turns)
      decreases turns
    {
      var found := SearchSectors(ff, sec, left, nm.value);
      match found {
        case Hit(c, n, d) => return Entry(c, n, d);
        case End => return Error(ENOENT);
        case Failed => return Error(EIO);
        case _ =>
      }
      if clus == 0 {
        return Error(ENOENT);
      }
      var next := ff.FatNext(clus);
      if next.None? {
        return Error(EIO);
      }
      if next.value == 0 {
        return Error(ENOENT);
      }
      clus, turns := next.value, turns - 1;
      sec, left := ClusterSector(ff.vol, clus), ff.vol.spc;
    }
  }

  /** find_partition: leaves the partition's first sector in the volume and an emptied cache where it
      moved. */
  method SelectPartition(ff: FatFile, part: u32) returns (p: Partition)
    requires ff.CacheValid()
    modifies ff`vol, ff`cacheSec, ff`cache
    ensures p == FindPartition(ff.vol.disk, part)
    ensures ff.CacheValid() && ff.vol.disk == old(ff.vol.disk)
    ensures p.Partition? ==> ff.vol == old(ff.vol).(partLba := p.lba)
  {
    hide LooksLikeBpb, Slot, Le32;
    ff.vol, ff.cacheSec := ff.vol.(partLba := 0), NO_SECTOR;
    var s0 := ff.PartSector(0);
    if s0.None? {
      return NoPartition(EIO);
    }
    if part == 0 {
      return Partition(0, NO_SECTOR);
    }
    var b := s0.value;
    if b[510] != 0x55 || b[511] != 0xAA {
      return NoPartition(ENODEV);
    }
    if LooksLikeBpb(b) {
      return if part == 1 then Partition(0, Total(b)) else NoPartition(ENODEV);
    }
    p := FindSlot(b, part);
    if p.Partition? {
      ff.vol, ff.cacheSec := ff.vol.(partLba := p.lba), NO_SECTOR;
    }
  }

  method FindSlot(s: seq<byte>, part: u32) returns (p: Partition)
    requires |s| == SECTOR
    ensures p == Slot(s, 0, 0, part)
  {
    hide Le32;
    var n := 0;
    for i := 0 to 4
      invariant Slot(s, 0, 0, part) == Slot(s, i, n, part)
    {
      var e := 0x1BE + 16 * i;
      if s[e + 4] == 0 || s[e + 4] == 0x05 || s[e + 4] == 0x0F {
        continue;
      }
      n := n + 1;
      if n == part {
        return Partition(Le32(s, e + 8), Le32(s, e + 12));
      }
    }
    p := NoPartition(ENODEV);
  }

  /** fat_open, on every path but those it follows forever. */
  method OpenFile(disk: seq<byte>, part: u32, path: seq<byte>) returns (status: Status, ff: FatFile)
    requires var m := Mount(disk, part); m.Mounted? ==> !PathLoops(m.vol, Root(m.vol), Components(path))
    ensures fresh(ff) && !ff.raw
    ensures match Open(disk, part, path)
            case File(v, first, size) =>
              && status == ESUCCESS && ff.vol == v && ff.first == first && ff.size == size
              && ff.CacheValid() && ff.Cur() == Cursor(0, first)
            case OpenError(s) => status == s
            case OpenEndless => false
  {
    hide FindPartition, Geometry, Walk, PathLoops, SectorOf, Mount;
    ff := new FatFile(Volume(disk, 0, 0, 0, 0, 0, 0, 0, 0, 0, 0));
    MountIs(disk, part);
    var p := SelectPartition(ff, part);
    if p.NoPartition? {
      return p.status, ff;
    }
    FirstSector(ff.vol, p.lba);
    var b := ff.PartSector(0);
    if b.None? {
      return EIO, ff;
    }
    var v := Geometry(disk, p.lba, b.value);
    if v.None? {
      return EIO, ff;
    }
    GeometryIs(disk, p.lba, b.value);
    FirstSector(v.value, p.lba);
    ff.vol, ff.cacheSec, ff.cache := v.value, 0, b.value;
    status := WalkPath(ff, path);
  }

  lemma MountIs(disk: seq<byte>, part: u32)
    ensures Mount(disk, part) ==
            match FindPartition(disk, part)
            case NoPartition(s) => Refused(s)
            case Partition(lba, _) =>
              var b := Read(disk, lba * SECTOR, SECTOR);
              if b.None? then Refused(EIO)
              else
                var v := Geometry(disk, lba, b.value);
                if v.None? then Refused(EIO) else Mounted(v.value)
  {
    hide FindPartition, Geometry;
  }

  lemma FirstSector(v: Volume, lba: u32)
    requires v.partLba == lba
    ensures SectorOf(v, 0) == Read(v.disk, lba * SECTOR, SECTOR)
  {
    assert Add32(lba, 0) == lba;
  }

  lemma GeometryIs(disk: seq<byte>, lba: u32, b: seq<byte>)
    requires |b| == SECTOR
    ensures Geometry(disk, lba, b).Some? ==>
              var v := Geometry(disk, lba, b).value; v.disk == disk && v.partLba == lba && v.fatSec < 0x1_0000
  {
  }

  /** The loop of fat_open over the path's components. */
  method WalkPath(ff: FatFile, path: seq<byte>) returns (status: Status)
    requires ff.CacheValid() && ff.Cached() && ff.vol.fatSec < 0x1_0000
    requires !PathLoops(ff.vol, Root(ff.vol), Components(path))
    modifies ff`cacheSec, ff`cache, ff`first, ff`size, ff`curIdx, ff`curClus
    ensures match Walk(ff.vol, path)
            case File(v, first, size) =>
              && status == ESUCCESS && v == ff.vol && ff.first == first && ff.size == size
              && ff.CacheValid() && ff.Cur() == Cursor(0, first)
            case OpenError(s) => status == s
            case OpenEndless => false
  {
    hide PathLoops, LookupLoops, Enter, SkipSlashes, ComponentLength, Components, DirLookup;
    var dir, clus, size, isDir, p := ff.vol.rootClus, 0 as u32, 0 as u32, true, path;
    ghost var root, names, n: nat := Root(ff.vol), Components(path), 0;
    AllNames(names, ff.vol, root);
    while p != []
      invariant ff.CacheValid() && ff.Cached() && (isDir || clus == dir)
      invariant n <= |names| && names[n..] == Components(p) && Resolve(ff.vol, root, names[..n]) == Entry(dir, size, isDir)
      decreases |p|
    {
      ComponentsStep(p);
      p := AfterSlashes(p);
      if p == [] {
        break;
      }
      var k := ComponentOf(p);
      var name := p[..k];
      NextName(ff.vol, root, names, n);
      assert names[n] == names[n..][0] == name && names[n + 1..] == names[n..][1..] == Components(p[k..]);
      if !isDir {
        return ENOTDIR;
      }
      var l := SearchDirectory(ff, dir, name);
      if l.Error? {
        return l.status;
      }
      clus, size, isDir := l.clus, l.size, l.isDir;
      dir := clus;
      p := p[k..];
      n := n + 1;
    }
    ComponentsStep([]);
    assert names[n..] == [] && names[..n] == names;
    if isDir {
      return EISDIR;
    }
    ff.first, ff.size, ff.curIdx, ff.curClus := clus, size, 0, clus;
    status := ESUCCESS;
  }

  lemma AllNames(names: seq<seq<byte>>, v: Volume, at: Lookup)
    ensures names[0..] == names && Resolve(v, at, names[..0]) == at
  {
  }

  /** One more name of a path that does not loop. */
  lemma NextName(v: Volume, at: Lookup, names: seq<seq<byte>>, n: nat)
    requires n < |names| && at.Entry?
    ensures !PathLoops(v, at, names) && Resolve(v, at, names[..n]).Entry? ==>
            var dir, next := Resolve(v, at, names[..n]), Resolve(v, at, names[..n + 1]);
            && !next.Endless? && (!next.Entry? ==> Resolve(v, at, names) == next)
            && if dir.isDir then !LookupLoops(v, dir.clus, names[n]) && next == DirLookup(v, dir.clus, names[n])
               else next == Error(ENOTDIR)
  {
    hide DirLookup, LookupLoops;
    var done, more := names[..n], names[..n + 1];
    assert more[..n] == done && more[n] == names[n];
    assert !PathLoops(v, at, names) ==> !LoopsAt(v, Resolve(v, at, done), names[n]);
    EnterEndlessIff(v, Resolve(v, at, done), names[n]);
    if !Resolve(v, at, more).Entry? {
      ResolveStays(v, at, names, n + 1);
    }
  }

  method AfterSlashes(p: seq<byte>) returns (r: seq<byte>)
    ensures r == SkipSlashes(p)
  {
    r := p;
    while r != [] && r[0] == BACKSLASH
      invariant SkipSlashes(p) == SkipSlashes(r)
      decreases |r|
    {
      r := r[1..];
    }
  }

  method ComponentOf(p: seq<byte>) returns (k: nat)
    ensures k == ComponentLength(p, 0)
  {
    k := 0;
    while k < |p| && p[k] != BACKSLASH && k < COMPONENT_MAX
      invariant k <= |p| && ComponentLength(p, 0) == k + ComponentLength(p[k..], k)
      decreases |p| - k
    {
      assert p[k..][1..] == p[k + 1..];
      k := k + 1;
    }
  }
}
