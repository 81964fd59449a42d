/** What fatput leaves on a FAT16 volume the firmware's reader finds: the rewritten file with its new
    bytes under its path, and every other file as before. */
module FatPutReads {
  import opened Words
  import opened Arithmetic
  import opened Blocks
  import R = FatReader
  import O = FatOpen
  import P = FatPut
  import S = FatPutSafety

  // ---- one volume, seen by both ----------------------------------------------------------------

  /** The tool's reading of a boot sector. */
  function GeometryOf(start: nat, b: seq<byte>): P.Geometry
    requires |b| == 512
  {
    P.Geometry(start, Le16(b, 11), b[13], Le16(b, 14), b[16], Le16(b, 17), Le16(b, 22),
               if Le16(b, 19) != 0 then Le16(b, 19) else Le32(b, 32))
  }

  /** The firmware's volume is the tool's, and is on the disk. */
  ghost predicate SameVolume(v: R.Volume, g: P.Geometry) {
    && g.bps == 512 && g.spc > 0 && g.nfat > 0 && g.res > 0
    && v.bits == 16 && v.rootClus == 0 && v.partLba == g.start && v.spc == g.spc && v.fatSec == g.res
    && g.start + v.rootSec == g.RootStart() && v.rootSec + v.rootSecs == v.dataSec
    && g.start + v.dataSec == g.DataStart() && v.dataSec <= g.total
    && v.nclus == (g.total - v.dataSec) / g.spc + 2
    && R.OnDisk(v) && R.FatOnDisk(v, g.spf)
  }

  /** The two take a boot sector for the same volume whenever the firmware takes it for FAT16. */
  lemma OpensSame(disk: seq<byte>, start: u32, b: seq<byte>)
    requires |b| == 512
    requires var g, v := GeometryOf(start, b), O.Geometry(disk, start, b);
             && v.Some? && v.value.bits == 16 && g.res > 0 && g.DataStart() <= start + g.total
             && R.OnDisk(v.value) && R.FatOnDisk(v.value, g.spf)
    ensures SameVolume(O.Geometry(disk, start, b).value, GeometryOf(start, b))
  {
    hide Le16, Le32, R.OnDisk, R.FatOnDisk, O.Geometry, P.Geometry.RootStart;
    var g := GeometryOf(start, b);
    IsFat16(disk, start, b);
    Regions(g);
    MulMono(1, b[16], Le16(b, 22));
    var data: u32 := g.DataStart() - start;
    DivSmall(g.total - data, b[13]);
    var n: u32 := (g.total - data) / b[13] + 2;
    O.GeometryReads(disk, start, b, Le16(b, 22), g.total, data, n);
    hide P.Geometry.DataStart, GeometryOf;
  }

  lemma IsFat16(disk: seq<byte>, start: u32, b: seq<byte>)
    requires |b| == 512 && O.Geometry(disk, start, b).Some? && O.Geometry(disk, start, b).value.bits == 16
    ensures Le16(b, 22) != 0 && Le16(b, 11) == 512 && b[13] > 0 && b[16] > 0
  {
    hide Le16, Le32;
  }

  lemma Regions(g: P.Geometry)
    requires g.bps == 512
    ensures g.RootStart() == g.start + g.res + g.nfat * g.spf
    ensures g.DataStart() == g.start + g.res + g.nfat * g.spf + (g.roote + 15) / 16
  {
    RootSectors(g.roote);
  }

  lemma RootSectors(ents: u16)
    ensures (ents * 32 + 512 - 1) / 512 == (ents + 15) / 16
  {
  }

  lemma DivSmall(n: nat, c: nat)
    requires c > 0
    ensures n / c <= n
  {
    DivMod(n, c);
    MulMono(1, c, n / c);
  }

  // ---- chains and contents ---------------------------------------------------------------------

  /** The image's first FAT copy. */
  ghost predicate FirstCopy(g: P.Geometry, img: seq<byte>, fat: seq<byte>) {
    var at := (g.start + g.res) * 512;
    |fat| == g.spf * 512 && at + |fat| <= |img| && img[at..at + |fat|] == fat
  }

  /** The firmware's link of a cluster is the tool's, where that is a cluster of the volume. */
  lemma NextSame(v: R.Volume, g: P.Geometry, fat: seq<byte>, c: nat)
    requires SameVolume(v, g) && FirstCopy(g, v.disk, fat) && c * 2 + 2 <= |fat| && c < 0x1_0000
    ensures var w := P.Next(fat, c);
            R.Next(v, c) == Some(if 2 <= w < v.nclus && w < 0xFFF8 then w else 0)
  {
    hide R.Next, R.OnDisk, P.Geometry.RootStart, P.Geometry.DataStart;
    R.Follows16(v, g.spf, c);
    var at := (g.start + g.res) * 512;
    assert v.disk[at..at + |fat|][2 * c] == v.disk[at + 2 * c];
    assert v.disk[at..at + |fat|][2 * c + 1] == v.disk[at + 2 * c + 1];
  }

  /** Clusters of the volume. */
  ghost predicate InVolume(v: R.Volume, ch: seq<nat>) {
    forall i :: 0 <= i < |ch| ==> 2 <= ch[i] < v.nclus && ch[i] < 0x1_0000
  }

  ghost function AsClusters(v: R.Volume, ch: seq<nat>): (cs: seq<u32>)
    requires InVolume(v, ch)
    ensures |cs| == |ch| && forall i :: 0 <= i < |cs| ==> cs[i] == ch[i]
  {
    seq(|ch|, i requires 0 <= i < |ch| => ch[i])
  }

  /** A whole chain of the tool's FAT is a whole chain to the firmware. */
  lemma ChainSame(v: R.Volume, g: P.Geometry, fat: seq<byte>, ch: seq<nat>)
    requires SameVolume(v, g) && FirstCopy(g, v.disk, fat) && P.IsChain(fat, ch) && InVolume(v, ch)
    ensures var cs := AsClusters(v, ch); R.InRange(v, cs) && R.Linked(v, cs) && R.Ends(v, cs)
  {
    hide R.Next, SameVolume, FirstCopy, P.Next;
    var cs, n := AsClusters(v, ch), |ch| - 1;
    forall i | 0 <= i < n
      ensures R.Next(v, cs[i]) == Some(cs[i + 1])
    {
      NextSame(v, g, fat, ch[i]);
    }
    NextSame(v, g, fat, ch[n]);
    var w := P.Next(fat, ch[n]);
    assert w < 2 || w >= 0xFFF8;
  }

  lemma StartIs(v: R.Volume, g: P.Geometry, c: nat)
    requires SameVolume(v, g) && 2 <= c
    ensures c < WORD ==> R.Start(v, c) == g.At(c)
    ensures v.ClusterBytes() == g.Per()
  {
    hide R.OnDisk, R.FatOnDisk, P.Geometry.DataStart, P.Geometry.RootStart;
  }

  /** What a chain holds is the same to both. */
  lemma {:induction false} ContentsSame(v: R.Volume, g: P.Geometry, ch: seq<nat>)
    requires SameVolume(v, g) && InVolume(v, ch) && P.ClustersFit(g, v.disk, ch)
    ensures R.Contents(v, AsClusters(v, ch)) == S.ReadBack(g, v.disk, ch)
    decreases |ch|
  {
    hide SameVolume, P.Geometry.At, P.Geometry.Per, R.Start, R.Volume.ClusterBytes, Flatten;
    var parts := R.Parts(v, AsClusters(v, ch));
    if ch == [] {
      assert parts == [];
      NoParts();
    } else {
      var n := |ch| - 1;
      ContentsSame(v, g, ch[..n]);
      assert parts[..n] == R.Parts(v, AsClusters(v, ch[..n]));
      StartIs(v, g, ch[n]);
      assert parts == parts[..n] + [parts[n]];
      FlattenConcat(parts[..n], [parts[n]]);
      OnePart(parts[n]);
    }
  }

  lemma NoParts()
    ensures Flatten([]) == []
  {
  }

  lemma OnePart(part: seq<byte>)
    ensures Flatten([part]) == part
  {
    assert [part][1..] == [];
  }

  // ---- the rewritten file ----------------------------------------------------------------------

  /** What the theorems demand: the tool's demands, on a volume both see. */
  ghost predicate Ready(v: R.Volume, g: P.Geometry, fat: seq<byte>, have: seq<nat>, data: seq<byte>, entry: nat) {
    && SameVolume(v, g) && FirstCopy(g, v.disk, fat)
    && P.Fits(g, v.disk, fat) && P.Placed(g, fat, have) && S.Sound(g, fat, have) && g.Per() > 0
    && |data| < WORD && entry + 32 <= |v.disk|
    && S.EntryPlaced(g, v.disk, fat, have, entry) && P.Rewritten(g, v.disk, fat, have, data, entry).Some?
  }

  /** The rewrite, and the firmware's volume after it. */
  ghost function Put(v: R.Volume, g: P.Geometry, fat: seq<byte>, have: seq<nat>, data: seq<byte>, entry: nat): P.Volume
    requires Ready(v, g, fat, have, data, entry)
  {
    P.Rewritten(g, v.disk, fat, have, data, entry).value
  }

  ghost function After(v: R.Volume, g: P.Geometry, fat: seq<byte>, have: seq<nat>, data: seq<byte>, entry: nat): R.Volume
    requires Ready(v, g, fat, have, data, entry)
  {
    v.(disk := Put(v, g, fat, have, data, entry).img)
  }

  lemma AfterIsSame(v: R.Volume, g: P.Geometry, fat: seq<byte>, have: seq<nat>, data: seq<byte>, entry: nat)
    requires Ready(v, g, fat, have, data, entry)
    ensures var w, r := After(v, g, fat, have, data, entry), Put(v, g, fat, have, data, entry);
            SameVolume(w, g) && |w.disk| == |v.disk| && |r.fat| == |fat| && FirstCopy(g, w.disk, r.fat)
  {
    hide P.Rewritten, P.IsChain, S.Sound, S.EntryPlaced, P.Fits, S.ReadBack, P.Geometry.Limit, P.Geometry.At;
    S.FileReadsBack(g, v.disk, fat, have, data, entry);
    S.CopiesAgree(g, v.disk, fat, have, data, entry, 0);
  }

  /** The rewritten file's chain, as the firmware follows it, covers the file and holds its bytes. */
  lemma RewrittenFileReads(v: R.Volume, g: P.Geometry, fat: seq<byte>, have: seq<nat>, data: seq<byte>, entry: nat)
    requires Ready(v, g, fat, have, data, entry)
    ensures var w, ch := After(v, g, fat, have, data, entry), Put(v, g, fat, have, data, entry).chain;
            && InVolume(w, ch) && ch != [] && ch[0] == have[0]
            && var cs := AsClusters(w, ch);
               && R.FileOk(w, cs, |data|) && |data| <= |R.Contents(w, cs)| && R.Contents(w, cs)[..|data|] == data
  {
    hide P.Rewritten, S.Sound, S.EntryPlaced, P.Fits, S.ReadBack, P.Geometry.At, R.Contents, FirstCopy;
    var w, r := After(v, g, fat, have, data, entry), Put(v, g, fat, have, data, entry);
    AfterIsSame(v, g, fat, have, data, entry);
    S.FileReadsBack(g, v.disk, fat, have, data, entry);
    ChainInVolume(v, g, fat, have, data, entry);
    ChainSame(w, g, r.fat, r.chain);
    ContentsSame(w, g, r.chain);
    StartIs(w, g, 2);
    R.ContentsLength(w, AsClusters(w, r.chain));
  }

  lemma ChainInVolume(v: R.Volume, g: P.Geometry, fat: seq<byte>, have: seq<nat>, data: seq<byte>, entry: nat)
    requires Ready(v, g, fat, have, data, entry)
    ensures InVolume(v, Put(v, g, fat, have, data, entry).chain)
  {
    hide P.Rewritten, S.EntryPlaced, P.Fits, P.Geometry.At, FirstCopy, P.Geometry.DataStart, P.Geometry.RootStart, P.IsChain, P.Resized;
    S.RewrittenIs(g, v.disk, fat, have, data, entry);
    P.ResizedFits(g, v.disk, fat, have, P.Need(g, |data|));
    LimitIs(v, g, |fat|);
  }

  lemma LimitIs(v: R.Volume, g: P.Geometry, n: nat)
    requires SameVolume(v, g)
    ensures g.Limit(n) <= v.nclus && 2 * g.Limit(n) <= n
  {
    hide P.Geometry.DataStart, P.Geometry.RootStart, R.OnDisk, R.FatOnDisk;
  }

  /** Every other file's chain is followed as before and holds what it held, but that a directory with
      the rewritten file's entry holds the new size in it. */
  lemma OtherFileReads(v: R.Volume, g: P.Geometry, fat: seq<byte>, have: seq<nat>, data: seq<byte>, entry: nat, other: seq<nat>)
    requires Ready(v, g, fat, have, data, entry)
    requires P.IsChain(fat, other) && P.Apart(have, other) && InVolume(v, other) && P.ClustersFit(g, v.disk, other)
    ensures var w, cs := After(v, g, fat, have, data, entry), AsClusters(v, other);
            && cs == AsClusters(w, other) && R.InRange(w, cs) && R.Linked(w, cs) && R.Ends(w, cs)
            && R.Contents(v, cs) == S.ReadBack(g, v.disk, other)
            && entry + 32 <= |v.disk| && P.ClustersFit(g, Splice(v.disk, entry + 28, Bytes32(|data|)), other)
            && R.Contents(w, cs) == S.ReadBack(g, Splice(v.disk, entry + 28, Bytes32(|data|)), other)
  {
    hide P.Rewritten, S.Sound, P.Fits, S.ReadBack, P.Geometry.At, R.Contents, FirstCopy, Splice, P.IsChain;
    var w, r := After(v, g, fat, have, data, entry), Put(v, g, fat, have, data, entry);
    AfterIsSame(v, g, fat, have, data, entry);
    S.OthersReadBack(g, v.disk, fat, have, data, entry, other);
    ChainSame(w, g, r.fat, other);
    ContentsSame(v, g, other);
    ContentsSame(w, g, other);
  }

  // ---- directories -----------------------------------------------------------------------------

  /** Where the entries of the root directory are. */
  ghost function RootPlaces(v: R.Volume): seq<nat> {
    seq(v.rootSecs * 16, k => (v.partLba + v.rootSec) * 512 + 32 * k)
  }

  /** The image position of byte `j` of a chain. */
  ghost function PlaceOf(g: P.Geometry, ch: seq<nat>, j: nat): nat
    requires g.bps > 0 && g.Per() > 0 && j < |ch| * g.Per() && forall i :: 0 <= i < |ch| ==> ch[i] >= 2
  {
    DivBound(j, g.Per(), |ch|);
    g.At(ch[j / g.Per()]) + j % g.Per()
  }

  /** Where the entries of a directory that is a chain are. */
  ghost predicate ChainPlaces(g: P.Geometry, ch: seq<nat>, at: seq<nat>)
    requires g.bps == 512 && g.spc > 0 && forall i :: 0 <= i < |ch| ==> ch[i] >= 2
  {
    && 32 * |at| == |ch| * g.Per()
    && forall k :: 0 <= k < |at| ==> at[k] == PlaceOf(g, ch, 32 * k)
  }

  ghost predicate DirectoryChain(v: R.Volume, g: P.Geometry, fat: seq<byte>, have: seq<nat>, dir: u32, at: seq<nat>, ch: seq<nat>)
    requires g.bps == 512 && g.spc > 0
  {
    && P.IsChain(fat, ch) && P.Apart(have, ch) && InVolume(v, ch) && P.ClustersFit(g, v.disk, ch) && ch[0] == dir
    && ChainPlaces(g, ch, at)
  }

  /** A sound directory, none of it in the clusters of `have`: the root, or a whole chain. */
  ghost predicate IsDirectory(v: R.Volume, g: P.Geometry, fat: seq<byte>, have: seq<nat>, dir: u32, at: seq<nat>)
    requires g.bps == 512 && g.spc > 0
  {
    if dir == 0 then at == RootPlaces(v) else exists ch :: DirectoryChain(v, g, fat, have, dir, at, ch)
  }

  ghost predicate Inside(disk: seq<byte>, at: seq<nat>) {
    forall k :: 0 <= k < |at| ==> at[k] + 32 <= |disk|
  }

  /** The entries' bytes, in order. */
  ghost function BytesAt(disk: seq<byte>, at: seq<nat>): (all: seq<byte>)
    requires Inside(disk, at)
    ensures |all| == 32 * |at|
  {
    seq(32 * |at|, j requires 0 <= j < 32 * |at| => disk[at[j / 32] + j % 32])
  }

  /** A lookup in a directory of these bytes. */
  ghost function LookupIn(all: seq<byte>, want: seq<byte>): O.Lookup {
    var nm := O.Name83(want);
    if nm.None? then O.Error(R.ENOENT) else O.Answer(O.EntriesScan(16, all, nm.value))
  }

  lemma {:induction false} ReadBackAt(g: P.Geometry, img: seq<byte>, ch: seq<nat>, j: nat)
    requires g.bps > 0 && g.Per() > 0 && P.ClustersFit(g, img, ch) && j < |ch| * g.Per()
    ensures |S.ReadBack(g, img, ch)| == |ch| * g.Per()
    ensures PlaceOf(g, ch, j) < |img| && S.ReadBack(g, img, ch)[j] == img[PlaceOf(g, ch, j)]
    decreases |ch|
  {
    hide P.Geometry.At, P.Geometry.Per;
    var n, per := |ch| - 1, g.Per();
    MulAdd(n, 1, per);
    ReadBackLength(g, img, ch);
    ReadBackLength(g, img, ch[..n]);
    DivBound(j, per, n);
    DivBound(j, per, |ch|);
    DivMod(j, per);
    if j < n * per {
      ReadBackAt(g, img, ch[..n], j);
    } else {
      DivModUnique(j, per, n, j - n * per);
      var last := img[g.At(ch[n])..g.At(ch[n]) + per];
      assert S.ReadBack(g, img, ch)[j] == last[j - n * per];
    }
  }

  lemma {:induction false} ReadBackLength(g: P.Geometry, img: seq<byte>, ch: seq<nat>)
    requires P.ClustersFit(g, img, ch)
    ensures |S.ReadBack(g, img, ch)| == |ch| * g.Per()
    decreases |ch|
  {
    hide P.Geometry.At, P.Geometry.Per;
    if ch != [] {
      MulAdd(|ch| - 1, 1, g.Per());
      ReadBackLength(g, img, ch[..|ch| - 1]);
    }
  }

  /** All 32 bytes of an entry are in one cluster. */
  lemma PlaceInEntry(g: P.Geometry, ch: seq<nat>, at: seq<nat>, j: nat)
    requires g.bps == 512 && g.spc > 0 && (forall i :: 0 <= i < |ch| ==> ch[i] >= 2) && ChainPlaces(g, ch, at) && j < 32 * |at|
    ensures g.Per() > 0 && PlaceOf(g, ch, j) == at[j / 32] + j % 32 && at[j / 32] % 32 == 0
    ensures exists i :: 0 <= i < |ch| && g.At(ch[i]) <= at[j / 32] && at[j / 32] + 32 <= g.At(ch[i]) + g.Per()
  {
    var per, k := g.Per(), j / 32;
    assert per == 32 * (16 * g.spc);
    hide P.Geometry.At, P.Geometry.Per, PlaceOf;
    EntryInCluster(16 * g.spc, j, per);
    PlaceIs(g, ch, 32 * k);
    PlaceIs(g, ch, j);
    assert at[k] == PlaceOf(g, ch, 32 * k);
    var i, r := j / per, 32 * k % per;
    var start := g.At(ch[i]);
    ClusterAligned(g, ch[i]);
    SumAligned(start, r);
    assert at[k] == start + r;
    assert 0 <= i < |ch| && start <= at[k] && at[k] + 32 <= start + per;
  }

  lemma SumAligned(a: nat, b: nat)
    ensures a % 32 == 0 && b % 32 == 0 ==> (a + b) % 32 == 0
  {
  }

  lemma PlaceIs(g: P.Geometry, ch: seq<nat>, j: nat)
    requires g.bps > 0 && g.Per() > 0 && j < |ch| * g.Per() && forall i :: 0 <= i < |ch| ==> ch[i] >= 2
    ensures 0 <= j / g.Per() < |ch| && PlaceOf(g, ch, j) == g.At(ch[j / g.Per()]) + j % g.Per()
  {
    hide P.Geometry.At, P.Geometry.Per;
    DivBound(j, g.Per(), |ch|);
  }

  lemma EntryInCluster(m: nat, j: nat, per: nat)
    requires per == 32 * m && m > 0
    ensures var k := j / 32;
            && 32 * k / per == j / per && j % per == 32 * k % per + j % 32
            && 32 * k % per % 32 == 0 && 32 * k % per + 32 <= per
  {
    var k, t := j / 32, j % 32;
    DivMod(k, m);
    var q, r := k / m, k % m;
    assert q * per == 32 * (q * m) by { Regrouped(q, m); }
    DivModUnique(32 * k, per, q, 32 * r);
    DivModUnique(j, per, q, 32 * r + t);
  }

  lemma Regrouped(q: nat, m: nat)
    ensures q * (32 * m) == 32 * (q * m)
  {
  }

  lemma ClusterAligned(g: P.Geometry, c: nat)
    requires g.bps > 0 && c >= 2
    ensures g.At(c) % 32 == 0
  {
    hide P.Geometry.DataStart;
    var n := g.DataStart() + (c - 2) * g.spc;
    assert g.At(c) == n * 512;
  }

  /** What the firmware finds in a directory is what its bytes say. */
  lemma LookupReads(v: R.Volume, g: P.Geometry, fat: seq<byte>, have: seq<nat>, dir: u32, at: seq<nat>, want: seq<byte>)
    requires SameVolume(v, g) && FirstCopy(g, v.disk, fat) && IsDirectory(v, g, fat, have, dir, at) && Inside(v.disk, at)
    ensures O.DirLookup(v, dir, want) == LookupIn(BytesAt(v.disk, at), want)
  {
    hide SameVolume, FirstCopy, O.Name83, O.EntriesScan, O.DirScan, R.Contents, P.IsChain;
    VolumeFacts(v, g);
    var nm := O.Name83(want);
    if nm.Some? {
      if dir == 0 {
        RootReads(v, g, at, nm.value);
      } else {
        var ch :| DirectoryChain(v, g, fat, have, dir, at, ch);
        ChainSame(v, g, fat, ch);
        ChainReads(v, g, ch, at);
        O.LookupInChain(v, AsClusters(v, ch), nm.value);
      }
    }
  }

  lemma VolumeFacts(v: R.Volume, g: P.Geometry)
    requires SameVolume(v, g)
    ensures v.bits == 16 && v.rootClus == 0 && R.OnDisk(v) && v.ClusterBytes() > 0 && g.bps == 512 && g.spc > 0
    ensures v.rootSec + v.rootSecs == v.dataSec
  {
  }

  lemma RootReads(v: R.Volume, g: P.Geometry, at: seq<nat>, nm: seq<byte>)
    requires SameVolume(v, g) && at == RootPlaces(v) && Inside(v.disk, at)
    ensures O.DirScan(v, 0, nm, v.nclus) == O.Answer(O.EntriesScan(16, BytesAt(v.disk, at), nm))
  {
    hide O.EntriesScan, O.DirScan, P.Geometry.RootStart, P.Geometry.DataStart;
    var from, n := (v.partLba + v.rootSec) * 512, v.rootSecs * 512;
    MulMono(0, v.nclus - 2, v.spc);
    assert from + n <= |v.disk|;
    assert v.disk[from..from + n] == BytesAt(v.disk, at);
    O.LookupInRoot(v, nm, from);
  }

  lemma ChainReads(v: R.Volume, g: P.Geometry, ch: seq<nat>, at: seq<nat>)
    requires SameVolume(v, g) && InVolume(v, ch) && P.ClustersFit(g, v.disk, ch) && ChainPlaces(g, ch, at) && Inside(v.disk, at)
    ensures R.Contents(v, AsClusters(v, ch)) == BytesAt(v.disk, at)
  {
    hide SameVolume, R.Contents, PlaceOf, P.Geometry.At, P.Geometry.Per;
    VolumeFacts(v, g);
    ContentsSame(v, g, ch);
    ReadBackLength(g, v.disk, ch);
    forall j | 0 <= j < 32 * |at|
      ensures S.ReadBack(g, v.disk, ch)[j] == BytesAt(v.disk, at)[j]
    {
      PlaceInEntry(g, ch, at, j);
      ReadBackAt(g, v.disk, ch, j);
    }
  }

  // ---- directories after the rewrite -----------------------------------------------------------

  /** Of an entry only the size field has changed, and that only here. */
  ghost predicate NewEntry(before: seq<byte>, after: seq<byte>, here: bool, size: u32) {
    && |before| == |after| == 32 && after[..28] == before[..28]
    && after[28..] == if here then Bytes32(size) else before[28..]
  }

  /** In a directory the size field of one entry at most has changed. */
  ghost predicate NewSize(before: seq<byte>, after: seq<byte>, at: seq<nat>, entry: nat, size: u32) {
    && |before| == |after| == 32 * |at|
    && forall k :: 0 <= k < |at| ==> NewEntry(O.EntryAt(before, k), O.EntryAt(after, k), at[k] == entry, size)
  }

  /** Every directory is still one, in the same place, and only the size of the rewritten file's entry
      has changed in it. */
  lemma DirectoryStays(v: R.Volume, g: P.Geometry, fat: seq<byte>, have: seq<nat>, data: seq<byte>, entry: nat,
                       dir: u32, at: seq<nat>)
    requires Ready(v, g, fat, have, data, entry) && entry % 32 == 0
    requires g.bps == 512 && g.spc > 0 && IsDirectory(v, g, fat, have, dir, at)
    ensures var w, r := After(v, g, fat, have, data, entry), Put(v, g, fat, have, data, entry);
            && IsDirectory(w, g, r.fat, r.chain, dir, at) && Inside(v.disk, at) && Inside(w.disk, at)
            && NewSize(BytesAt(v.disk, at), BytesAt(w.disk, at), at, entry, |data|)
  {
    SizeIsWord(v, g, fat, have, data, entry);
    hide Ready, IsDirectory, Put, After, NewEntry;
    var w := After(v, g, fat, have, data, entry);
    forall k | 0 <= k < |at|
      ensures at[k] + 32 <= |v.disk| && at[k] + 32 <= |w.disk|
      ensures NewEntry(v.disk[at[k]..at[k] + 32], w.disk[at[k]..at[k] + 32], at[k] == entry, |data|)
    {
      EntryStays(v, g, fat, have, data, entry, dir, at, k);
    }
    forall k | 0 <= k < |at|
      ensures O.EntryAt(BytesAt(v.disk, at), k) == v.disk[at[k]..at[k] + 32]
      ensures O.EntryAt(BytesAt(w.disk, at), k) == w.disk[at[k]..at[k] + 32]
    {
      EntryBytes(v.disk, at, k);
      EntryBytes(w.disk, at, k);
    }
    StillDirectory(v, g, fat, have, data, entry, dir, at);
  }

  lemma EntryBytes(disk: seq<byte>, at: seq<nat>, k: nat)
    requires Inside(disk, at) && k < |at|
    ensures O.EntryAt(BytesAt(disk, at), k) == disk[at[k]..at[k] + 32]
  {
    var e := O.EntryAt(BytesAt(disk, at), k);
    forall t | 0 <= t < 32
      ensures e[t] == disk[at[k]..at[k] + 32][t]
    {
      assert (32 * k + t) / 32 == k && (32 * k + t) % 32 == t;
    }
  }

  lemma EntryStays(v: R.Volume, g: P.Geometry, fat: seq<byte>, have: seq<nat>, data: seq<byte>, entry: nat,
                   dir: u32, at: seq<nat>, k: nat)
    requires Ready(v, g, fat, have, data, entry) && entry % 32 == 0
    requires g.bps == 512 && g.spc > 0 && IsDirectory(v, g, fat, have, dir, at) && k < |at|
    ensures |data| < WORD
    ensures var w := After(v, g, fat, have, data, entry);
            && at[k] + 32 <= |v.disk| == |w.disk|
            && NewEntry(v.disk[at[k]..at[k] + 32], w.disk[at[k]..at[k] + 32], at[k] == entry, |data|)
  {
    hide IsDirectory, Put, After, Ready;
    var w := After(v, g, fat, have, data, entry);
    ByteStays(v, g, fat, have, data, entry, dir, at, k, 0);
    var before, after, size := v.disk[at[k]..at[k] + 32], w.disk[at[k]..at[k] + 32], Bytes32(|data|);
    forall t | 0 <= t < 32
      ensures after[t] == if at[k] == entry && t >= 28 then size[t - 28] else before[t]
    {
      ByteStays(v, g, fat, have, data, entry, dir, at, k, t);
    }
    NewEntryIs(before, after, at[k] == entry, |data|);
  }

  lemma NewEntryIs(before: seq<byte>, after: seq<byte>, here: bool, size: u32)
    requires |before| == |after| == 32
    requires forall t :: 0 <= t < 32 ==> after[t] == if here && t >= 28 then Bytes32(size)[t - 28] else before[t]
    ensures NewEntry(before, after, here, size)
  {
    hide Bytes32;
  }

  lemma SizeIsWord(v: R.Volume, g: P.Geometry, fat: seq<byte>, have: seq<nat>, data: seq<byte>, entry: nat)
    ensures Ready(v, g, fat, have, data, entry) ==> |data| < WORD
  {
  }

  lemma StillDirectory(v: R.Volume, g: P.Geometry, fat: seq<byte>, have: seq<nat>, data: seq<byte>, entry: nat,
                       dir: u32, at: seq<nat>)
    requires Ready(v, g, fat, have, data, entry) && g.bps == 512 && g.spc > 0 && IsDirectory(v, g, fat, have, dir, at)
    ensures var w, r := After(v, g, fat, have, data, entry), Put(v, g, fat, have, data, entry);
            IsDirectory(w, g, r.fat, r.chain, dir, at)
  {
    hide P.Rewritten, S.Sound, P.Fits, S.ReadBack, P.Geometry.At, P.Geometry.Per, PlaceOf, ChainPlaces, P.IsChain, SameVolume, FirstCopy;
    if dir != 0 {
      var ch :| DirectoryChain(v, g, fat, have, dir, at, ch);
      S.OthersReadBack(g, v.disk, fat, have, data, entry, ch);
      var w, r := After(v, g, fat, have, data, entry), Put(v, g, fat, have, data, entry);
      assert DirectoryChain(w, g, r.fat, r.chain, dir, at, ch);
    }
  }

  /** One byte of one entry. */
  lemma ByteStays(v: R.Volume, g: P.Geometry, fat: seq<byte>, have: seq<nat>, data: seq<byte>, entry: nat,
                  dir: u32, at: seq<nat>, k: nat, t: nat)
    requires Ready(v, g, fat, have, data, entry) && entry % 32 == 0
    requires g.bps == 512 && g.spc > 0 && IsDirectory(v, g, fat, have, dir, at) && k < |at| && t < 32
    ensures |data| < WORD
    ensures var w := After(v, g, fat, have, data, entry);
            && at[k] + 32 <= |v.disk| == |w.disk|
            && w.disk[at[k] + t] == if at[k] == entry && t >= 28 then Bytes32(|data|)[t - 28] else v.disk[at[k] + t]
  {
    hide P.Rewritten, S.Sound, P.Fits, S.ReadBack, P.Geometry.At, P.Geometry.Per, SameVolume, FirstCopy, IsDirectory, S.InClusters;
    AfterIsSame(v, g, fat, have, data, entry);
    EntryIsOutside(v, g, fat, have, data, entry, dir, at, k, t);
    S.WriteChangesOnly(g, v.disk, fat, have, data, entry, at[k] + t);
    Aligned(at[k], entry, t);
  }

  lemma Aligned(a: nat, entry: nat, t: nat)
    requires a % 32 == 0 && entry % 32 == 0 && t < 32
    ensures entry + 28 <= a + t < entry + 32 <==> a == entry && t >= 28
  {
    if entry + 28 <= a + t < entry + 32 {
      assert a / 32 == entry / 32;
    }
  }

  /** No entry of a directory is in the FATs or in the file's new clusters. */
  lemma EntryIsOutside(v: R.Volume, g: P.Geometry, fat: seq<byte>, have: seq<nat>, data: seq<byte>, entry: nat,
                       dir: u32, at: seq<nat>, k: nat, t: nat)
    requires Ready(v, g, fat, have, data, entry)
    requires g.bps == 512 && g.spc > 0 && IsDirectory(v, g, fat, have, dir, at) && k < |at| && t < 32
    ensures var ch := Put(v, g, fat, have, data, entry).chain;
            && at[k] % 32 == 0 && at[k] + 32 <= |v.disk| && g.RootStart() * 512 <= at[k]
            && (forall i :: 0 <= i < |ch| ==> ch[i] >= 2) && !S.InClusters(g, ch, at[k] + t)
  {
    hide P.Rewritten, P.Geometry.At, P.Geometry.Per, S.ReadBack, R.OnDisk, R.FatOnDisk;
    S.FileReadsBack(g, v.disk, fat, have, data, entry);
    S.RootBeforeData(g);
    var r := Put(v, g, fat, have, data, entry);
    if dir == 0 {
      RootIsBelow(v, g, at, k);
      forall i | 0 <= i < |r.chain|
        ensures !(g.At(r.chain[i]) <= at[k] + t < g.At(r.chain[i]) + g.Per())
      {
        S.ClusterPlace(g, r.chain[i]);
      }
    } else {
      var ch :| DirectoryChain(v, g, fat, have, dir, at, ch);
      ChainIsBeside(v, g, fat, have, data, entry, dir, at, ch, k, t);
    }
  }

  lemma RootIsBelow(v: R.Volume, g: P.Geometry, at: seq<nat>, k: nat)
    requires SameVolume(v, g) && at == RootPlaces(v) && k < |at|
    ensures at[k] % 32 == 0 && g.RootStart() * 512 <= at[k] && at[k] + 32 <= g.DataStart() * 512 && at[k] + 32 <= |v.disk|
  {
    hide P.Geometry.RootStart, P.Geometry.DataStart, R.FatOnDisk;
    MulMono(0, v.nclus - 2, v.spc);
  }

  lemma ChainIsBeside(v: R.Volume, g: P.Geometry, fat: seq<byte>, have: seq<nat>, data: seq<byte>, entry: nat,
                      dir: u32, at: seq<nat>, ch: seq<nat>, k: nat, t: nat)
    requires Ready(v, g, fat, have, data, entry) && g.bps == 512 && g.spc > 0
    requires DirectoryChain(v, g, fat, have, dir, at, ch) && k < |at| && t < 32
    ensures var r := Put(v, g, fat, have, data, entry).chain;
            && at[k] % 32 == 0 && at[k] + 32 <= |v.disk| && g.RootStart() * 512 <= at[k]
            && (forall i :: 0 <= i < |r| ==> r[i] >= 2) && !S.InClusters(g, r, at[k] + t)
  {
    hide P.Geometry.At, P.Geometry.Per, S.ReadBack, SameVolume, FirstCopy, PlaceOf, P.Fits, Ready, S.InClusters, P.Geometry.RootStart,
         P.Geometry.DataStart, Put, ChainPlaces, P.IsChain, InVolume;
    ApartAfter(v, g, fat, have, data, entry, ch);
    S.RootBeforeData(g);
    PlaceInEntry(g, ch, at, 32 * k);
    var i :| 0 <= i < |ch| && g.At(ch[i]) <= at[k] && at[k] + 32 <= g.At(ch[i]) + g.Per();
    S.ClusterPlace(g, ch[i]);
    InCluster(g, ch, i, at[k] + t);
    S.NotInOther(g, Put(v, g, fat, have, data, entry).chain, ch, at[k] + t);
  }

  lemma InCluster(g: P.Geometry, ch: seq<nat>, i: nat, p: nat)
    requires g.bps > 0 && i < |ch| && forall j :: 0 <= j < |ch| ==> ch[j] >= 2
    ensures g.At(ch[i]) <= p < g.At(ch[i]) + g.Per() ==> S.InClusters(g, ch, p)
  {
  }

  lemma ApartAfter(v: R.Volume, g: P.Geometry, fat: seq<byte>, have: seq<nat>, data: seq<byte>, entry: nat, ch: seq<nat>)
    requires Ready(v, g, fat, have, data, entry) && P.IsChain(fat, ch) && P.Apart(have, ch) && P.ClustersFit(g, v.disk, ch)
    ensures var r := Put(v, g, fat, have, data, entry);
            P.Apart(r.chain, ch) && (forall i :: 0 <= i < |r.chain| ==> r.chain[i] >= 2) && P.IsChain(r.fat, ch)
  {
    hide P.Rewritten, P.Geometry.At, P.Geometry.Per, S.ReadBack, SameVolume, FirstCopy, P.Fits;
    S.FileReadsBack(g, v.disk, fat, have, data, entry);
    S.OthersReadBack(g, v.disk, fat, have, data, entry, ch);
  }

  // ---- lookups and paths after the rewrite -----------------------------------------------------

  /** The same entry, but that its size is the new one where it is the rewritten file's. */
  ghost function Resized(found: O.Lookup, here: bool, size: u32): O.Lookup {
    if found.Entry? && here then found.(size := size) else found
  }

  lemma EntryMatches(before: seq<byte>, after: seq<byte>, here: bool, size: u32, nm: seq<byte>)
    requires NewEntry(before, after, here, size) && |nm| == 11
    ensures O.Matches(after, nm) == O.Matches(before, nm) && after[0] == before[0]
    ensures O.Fields(16, after) == Resized(O.Fields(16, before), here, size)
  {
    assert forall t :: 0 <= t < 28 ==> after[t] == after[..28][t] == before[..28][t] == before[t];
    assert after[..11] == before[..11];
    var b := Bytes32(size);
    if here {
      assert forall t :: 0 <= t < 4 ==> after[28 + t] == after[28..][t] == b[t];
      assert Le32(after, 28) == Le32(b, 0);
    } else {
      assert forall t :: 0 <= t < 4 ==> after[28 + t] == after[28..][t] == before[28..][t] == before[28 + t];
    }
  }

  /** A lookup finds the same entry. */
  lemma ScanAfter(before: seq<byte>, after: seq<byte>, at: seq<nat>, entry: nat, size: u32, nm: seq<byte>)
    requires NewSize(before, after, at, entry, size) && |nm| == 11
    ensures forall k: nat :: O.FirstMatch(before, nm, k) ==>
              k < |at| && O.Answer(O.EntriesScan(16, after, nm)) ==
                          Resized(O.Answer(O.EntriesScan(16, before, nm)), at[k] == entry, size)
    ensures (forall k: nat :: !O.FirstMatch(before, nm, k)) ==>
              O.Answer(O.EntriesScan(16, after, nm)) == O.Answer(O.EntriesScan(16, before, nm)) == O.Error(R.ENOENT)
  {
    hide O.Matches, O.Fields, NewEntry, O.EntriesScan, O.EntryAt;
    O.ScanFindsFirst(16, before, nm);
    O.ScanFindsFirst(16, after, nm);
    forall i | 0 <= i < |at|
      ensures O.Matches(O.EntryAt(after, i), nm) == O.Matches(O.EntryAt(before, i), nm)
      ensures O.EntryAt(after, i)[0] == O.EntryAt(before, i)[0]
      ensures O.Fields(16, O.EntryAt(after, i)) == Resized(O.Fields(16, O.EntryAt(before, i)), at[i] == entry, size)
    {
      EntryMatches(O.EntryAt(before, i), O.EntryAt(after, i), at[i] == entry, size, nm);
    }
    forall k: nat
      ensures O.FirstMatch(before, nm, k) <==> O.FirstMatch(after, nm, k)
    {
    }
  }

  /** Every lookup in every sound directory finds after the rewrite what it found before, the rewritten
      file's entry with its new size. */
  lemma LookupAfter(v: R.Volume, g: P.Geometry, fat: seq<byte>, have: seq<nat>, data: seq<byte>, entry: nat,
                    dir: u32, at: seq<nat>, want: seq<byte>)
    requires Ready(v, g, fat, have, data, entry) && entry % 32 == 0 && |data| < WORD
    requires g.bps == 512 && g.spc > 0 && IsDirectory(v, g, fat, have, dir, at)
    ensures Inside(v.disk, at)
    ensures var w, nm := After(v, g, fat, have, data, entry), O.Name83(want);
            var x, y := O.DirLookup(v, dir, want), O.DirLookup(w, dir, want);
            && (nm.Some? ==> forall k: nat :: O.FirstMatch(BytesAt(v.disk, at), nm.value, k) ==>
                  k < |at| && y == Resized(x, at[k] == entry, |data|))
            && (nm.None? || (forall k: nat :: !O.FirstMatch(BytesAt(v.disk, at), nm.value, k)) ==> y == x)
  {
    hide Ready, IsDirectory, Put, After, NewSize, O.Name83, O.EntriesScan, O.FirstMatch, SameVolume, FirstCopy, BytesAt, O.DirLookup;
    DirectoryStays(v, g, fat, have, data, entry, dir, at);
    ReadyFacts(v, g, fat, have, data, entry);
    var w, r := After(v, g, fat, have, data, entry), Put(v, g, fat, have, data, entry);
    AfterIsSame(v, g, fat, have, data, entry);
    LookupReads(v, g, fat, have, dir, at, want);
    LookupReads(w, g, r.fat, r.chain, dir, at, want);
    var nm := O.Name83(want);
    if nm.Some? {
      ScanAfter(BytesAt(v.disk, at), BytesAt(w.disk, at), at, entry, |data|, nm.value);
    }
  }

  lemma ReadyFacts(v: R.Volume, g: P.Geometry, fat: seq<byte>, have: seq<nat>, data: seq<byte>, entry: nat)
    ensures Ready(v, g, fat, have, data, entry) ==> SameVolume(v, g) && FirstCopy(g, v.disk, fat)
  {
  }

  /** Every directory the names lead to is sound. */
  ghost predicate SoundPath(v: R.Volume, g: P.Geometry, fat: seq<byte>, have: seq<nat>, names: seq<seq<byte>>)
    requires g.bps == 512 && g.spc > 0
  {
    forall i: nat :: i < |names| ==>
      var d := O.Resolve(v, O.Root(v), names[..i]);
      d.Entry? && d.isDir ==> exists at :: IsDirectory(v, g, fat, have, d.clus, at)
  }

  /** The same outcome, sizes aside. */
  ghost predicate AsBefore(x: O.Lookup, y: O.Lookup) {
    x == y || (x.Entry? && y.Entry? && x.clus == y.clus && x.isDir == y.isDir)
  }

  /** Every path of sound directories leads where it led. */
  lemma {:induction false} PathAfter(v: R.Volume, g: P.Geometry, fat: seq<byte>, have: seq<nat>, data: seq<byte>, entry: nat,
                                     names: seq<seq<byte>>)
    requires Ready(v, g, fat, have, data, entry) && entry % 32 == 0 && |data| < WORD
    requires g.bps == 512 && g.spc > 0 && SoundPath(v, g, fat, have, names)
    ensures var w := After(v, g, fat, have, data, entry);
            AsBefore(O.Resolve(v, O.Root(v), names), O.Resolve(w, O.Root(w), names))
    decreases |names|
  {
    hide Ready, IsDirectory, Put, O.DirLookup, O.FirstMatch, BytesAt, O.Name83;
    if names != [] {
      var n := |names| - 1;
      var front := names[..n];
      assert forall i: nat :: i <= n ==> front[..i] == names[..i];
      PathAfter(v, g, fat, have, data, entry, front);
      var d := O.Resolve(v, O.Root(v), front);
      if d.Entry? && d.isDir {
        var at :| IsDirectory(v, g, fat, have, d.clus, at);
        LookupAfter(v, g, fat, have, data, entry, d.clus, at, names[n]);
      }
    }
  }

  /** The names before the last lead to directory `dir`, where the last one finds entry `k`, the
      rewritten one. */
  ghost predicate LeadsTo(v: R.Volume, g: P.Geometry, fat: seq<byte>, have: seq<nat>, entry: nat, names: seq<seq<byte>>,
                          at: seq<nat>, k: nat)
    requires g.bps == 512 && g.spc > 0
  {
    && names != [] && SoundPath(v, g, fat, have, names) && Inside(v.disk, at) && k < |at| && at[k] == entry
    && var d := O.Resolve(v, O.Root(v), names[..|names| - 1]);
       && d.Entry? && d.isDir && IsDirectory(v, g, fat, have, d.clus, at)
       && O.Name83(names[|names| - 1]).Some? && O.FirstMatch(BytesAt(v.disk, at), O.Name83(names[|names| - 1]).value, k)
  }

  /** The path of the rewritten file leads to it, with its new size. */
  lemma PathToFile(v: R.Volume, g: P.Geometry, fat: seq<byte>, have: seq<nat>, data: seq<byte>, entry: nat,
                   names: seq<seq<byte>>, at: seq<nat>, k: nat)
    requires Ready(v, g, fat, have, data, entry) && entry % 32 == 0 && |data| < WORD
    requires g.bps == 512 && g.spc > 0 && LeadsTo(v, g, fat, have, entry, names, at, k)
    ensures var w := After(v, g, fat, have, data, entry);
            O.Resolve(w, O.Root(w), names) == Resized(O.Resolve(v, O.Root(v), names), true, |data|)
  {
    hide Ready, IsDirectory, Put, O.DirLookup, O.FirstMatch, BytesAt, O.Name83;
    var n := |names| - 1;
    assert forall i: nat :: i < n ==> names[..n][..i] == names[..i];
    PathAfter(v, g, fat, have, data, entry, names[..n]);
    LookupAfter(v, g, fat, have, data, entry, O.Resolve(v, O.Root(v), names[..n]).clus, at, names[n]);
  }

  // ---- opening and reading it ------------------------------------------------------------------

  /** No byte before the FATs changes. */
  lemma FrontStays(v: R.Volume, g: P.Geometry, fat: seq<byte>, have: seq<nat>, data: seq<byte>, entry: nat, p: nat)
    requires Ready(v, g, fat, have, data, entry) && p < (g.start + g.res) * 512
    ensures p < |v.disk| == |After(v, g, fat, have, data, entry).disk| && After(v, g, fat, have, data, entry).disk[p] == v.disk[p]
  {
    hide P.Rewritten, P.Geometry.At, P.Geometry.Per, S.ReadBack, SameVolume, FirstCopy, P.Fits, S.InClusters, P.Geometry.RootStart,
         P.Geometry.DataStart;
    AfterIsSame(v, g, fat, have, data, entry);
    S.FileReadsBack(g, v.disk, fat, have, data, entry);
    var ch := Put(v, g, fat, have, data, entry).chain;
    FrontPlaces(g, p);
    FatsFit(v, g, fat);
    NotBefore(g, ch, p);
    S.WriteChangesOnly(g, v.disk, fat, have, data, entry, p);
  }

  lemma FrontPlaces(g: P.Geometry, p: nat)
    requires g.bps > 0 && p < (g.start + g.res) * 512
    ensures p < g.FatStart() * 512 <= g.RootStart() * 512 <= g.DataStart() * 512
  {
    MulMono(0, g.nfat, g.spf);
    S.RootBeforeData(g);
  }

  lemma FatsFit(v: R.Volume, g: P.Geometry, fat: seq<byte>)
    requires P.Fits(g, v.disk, fat)
    ensures g.DataStart() * 512 <= |v.disk|
  {
  }

  lemma NotBefore(g: P.Geometry, ch: seq<nat>, p: nat)
    requires g.bps > 0 && (forall i :: 0 <= i < |ch| ==> ch[i] >= 2) && p < g.DataStart() * 512
    ensures !S.InClusters(g, ch, p)
  {
    hide P.Geometry.At, P.Geometry.Per, P.Geometry.DataStart;
    forall i | 0 <= i < |ch|
      ensures !(g.At(ch[i]) <= p < g.At(ch[i]) + g.Per())
    {
      S.ClusterPlace(g, ch[i]);
    }
  }

  /** The firmware mounts the volume as before. */
  lemma MountAfter(v: R.Volume, g: P.Geometry, fat: seq<byte>, have: seq<nat>, data: seq<byte>, entry: nat, part: u32)
    requires Ready(v, g, fat, have, data, entry) && O.Mount(v.disk, part) == O.Mounted(v)
    ensures O.Mount(After(v, g, fat, have, data, entry).disk, part) == O.Mounted(After(v, g, fat, have, data, entry))
  {
    hide Ready, Put, O.FindPartition, O.Geometry;
    var w := After(v, g, fat, have, data, entry);
    ReadyFacts(v, g, fat, have, data, entry);
    PartitionStarts(v, g);
    SectorStays(v, g, fat, have, data, entry, 0);
    SectorStays(v, g, fat, have, data, entry, g.start);
    MountsAt(v, part);
    FindReads(v.disk, w.disk, part);
    var at: nat := v.partLba * 512;
    GeometryReads(v.disk, w.disk, v.partLba, R.Read(v.disk, at, 512).value);
  }

  lemma PartitionStarts(v: R.Volume, g: P.Geometry)
    ensures SameVolume(v, g) ==> g.start == v.partLba && g.res > 0
  {
  }

  lemma MountsAt(v: R.Volume, part: u32)
    requires O.Mount(v.disk, part) == O.Mounted(v)
    ensures O.FindPartition(v.disk, part).Partition? && O.FindPartition(v.disk, part).lba == v.partLba
    ensures R.Read(v.disk, v.partLba * 512, 512).Some?
    ensures O.Geometry(v.disk, v.partLba, R.Read(v.disk, v.partLba * 512, 512).value) == Some(v)
  {
    hide O.FindPartition, O.Geometry;
    var p := O.FindPartition(v.disk, part);
    var b := R.Read(v.disk, p.lba * 512, 512);
    O.GeometryIs(v.disk, p.lba, b.value);
  }

  lemma SectorStays(v: R.Volume, g: P.Geometry, fat: seq<byte>, have: seq<nat>, data: seq<byte>, entry: nat, sec: nat)
    requires Ready(v, g, fat, have, data, entry) && sec < g.start + g.res
    ensures R.Read(After(v, g, fat, have, data, entry).disk, sec * 512, 512) == R.Read(v.disk, sec * 512, 512)
  {
    hide Ready, Put, After;
    var w := After(v, g, fat, have, data, entry);
    FrontStays(v, g, fat, have, data, entry, 0);
    FrontStays(v, g, fat, have, data, entry, sec * 512 + 511);
    var a, b := w.disk[sec * 512..sec * 512 + 512], v.disk[sec * 512..sec * 512 + 512];
    forall i | 0 <= i < 512
      ensures a[i] == b[i]
    {
      FrontStays(v, g, fat, have, data, entry, sec * 512 + i);
    }
    assert a == b;
  }

  lemma FindReads(disk: seq<byte>, now: seq<byte>, part: u32)
    requires R.Read(now, 0, 512) == R.Read(disk, 0, 512)
    ensures O.FindPartition(now, part) == O.FindPartition(disk, part)
  {
    hide O.Slot, O.LooksLikeBpb, O.Total;
  }

  lemma GeometryReads(disk: seq<byte>, now: seq<byte>, lba: u32, b: seq<byte>)
    requires |b| == 512 && O.Geometry(disk, lba, b).Some?
    ensures O.Geometry(now, lba, b) == Some(O.Geometry(disk, lba, b).value.(disk := now))
  {
    hide Le16, Le32, O.Quotient, O.Product;
  }

  /** A file that opens, rewritten with `data`, opens again under its path, with its new size, and any
      reads of it in any order return `data`. */
  lemma RewrittenFileOpens(v: R.Volume, g: P.Geometry, fat: seq<byte>, have: seq<nat>, data: seq<byte>, entry: nat,
                           part: u32, path: seq<byte>, at: seq<nat>, k: nat, was: u32, calls: seq<R.Call>, i: nat)
    requires Ready(v, g, fat, have, data, entry) && entry % 32 == 0 && |data| < WORD
    requires O.Mount(v.disk, part) == O.Mounted(v) && O.Open(v.disk, part, path) == O.File(v, have[0], was)
    requires g.bps == 512 && g.spc > 0 && LeadsTo(v, g, fat, have, entry, O.Components(path), at, k) && i < |calls|
    ensures var w := After(v, g, fat, have, data, entry);
            && have[0] < WORD && w.ClusterBytes() > 0
            && O.Open(w.disk, part, path) == O.File(w, have[0], |data|)
            && var o := R.Reads(w, have[0], |data|, R.Cursor(0, have[0]), calls)[i];
               o.end.Whole? && R.IsSlice(o.data, data, calls[i], |data|)
  {
    hide Ready, Put, O.Mount, LeadsTo, O.Resolve, O.Components, R.FileOk, R.Contents, InVolume, R.IsSlice;
    var w := After(v, g, fat, have, data, entry);
    MountAfter(v, g, fat, have, data, entry, part);
    PathToFile(v, g, fat, have, data, entry, O.Components(path), at, k);
    RewrittenFileReads(v, g, fat, have, data, entry);
    var cs := AsClusters(w, Put(v, g, fat, have, data, entry).chain);
    R.ReadsReturnSlices(w, cs, |data|, R.Cursor(0, cs[0]), calls, i);
    R.SliceOfFront(R.Reads(w, cs[0], |data|, R.Cursor(0, cs[0]), calls)[i].data, R.Contents(w, cs), data, calls[i]);
  }

  /** Any other path of sound directories opens as before: a file with its first cluster, or the same
      refusal. */
  lemma OthersOpen(v: R.Volume, g: P.Geometry, fat: seq<byte>, have: seq<nat>, data: seq<byte>, entry: nat, path: seq<byte>)
    requires Ready(v, g, fat, have, data, entry) && entry % 32 == 0 && |data| < WORD
    requires g.bps == 512 && g.spc > 0 && SoundPath(v, g, fat, have, O.Components(path))
    ensures var w := After(v, g, fat, have, data, entry);
            var x, y := O.Walk(v, path), O.Walk(w, path);
            if x.File? then y.File? && y.vol == w && y.first == x.first else y == x
  {
    hide Ready, Put, O.Resolve, O.Components, IsDirectory;
    PathAfter(v, g, fat, have, data, entry, O.Components(path));
  }
}
