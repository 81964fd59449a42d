/** tools/fatput.py: replacing one file of a FAT16 volume in place, growing or shrinking its chain. */
module FatPut {
  import opened Words
  import opened Arithmetic
  import opened Counting

  const FREE: u16 := 0
  const EOC: u16 := 0xFFFF
  const CHAIN_MAX: nat := 0x10_0000

  // ---- the volume ------------------------------------------------------------------------------

  /** The boot sector's numbers; positions in the image count 512-byte sectors. */
  datatype Geometry = Geometry(start: nat, bps: u16, spc: byte, res: u16, nfat: byte, roote: u16, spf: u16, total: nat)
  {
    function FatStart(): nat { start + res }
    function RootStart(): nat { FatStart() + nfat * spf }
    function DataStart(): nat
      requires bps > 0
    {
      RootStart() + (roote * 32 + bps - 1) / bps
    }
    function Per(): nat { spc * bps }

    /** Where FAT copy `i` starts. */
    function CopyAt(i: nat): nat {
      MulMono(0, i, spf);
      (FatStart() + i * spf) * 512
    }

    /** The position of cluster `c`. */
    function At(c: nat): nat
      requires bps > 0 && c >= 2
    {
      (DataStart() + (c - 2) * spc) * 512
    }

    /** Clusters free_clusters looks at: [2, Limit). */
    function Limit(fatBytes: nat): (l: int)
      requires bps > 0 && spc > 0
      ensures l * 2 <= fatBytes
    {
      Min((total - (DataStart() - start)) / spc + 2, fatBytes / 2)
    }
  }

  /** The image holds the FAT copies and every cluster; clusters do not overlap. */
  ghost predicate Fits(g: Geometry, img: seq<byte>, fat: seq<byte>) {
    && 0 < g.bps <= 512 && g.spc > 0
    && |fat| == g.spf * 512
    && g.DataStart() * 512 <= |img|
    && forall c :: 2 <= c < g.Limit(|fat|) ==> g.At(c) + g.Per() <= |img|
  }

  predicate InFile(c: int) { 2 <= c < 0xFFF8 }

  function Next(fat: seq<byte>, c: nat): u16
    requires c * 2 + 2 <= |fat|
  {
    Le16(fat, c * 2)
  }

  function SetNext(fat: seq<byte>, c: nat, v: u16): (r: seq<byte>)
    requires c * 2 + 2 <= |fat|
    ensures |r| == |fat|
  {
    Splice(fat, c * 2, Bytes16(v))
  }

  lemma SetNextChangesOne(fat: seq<byte>, c: nat, v: u16, m: nat)
    requires c * 2 + 2 <= |fat| && m * 2 + 2 <= |fat|
    ensures Next(SetNext(fat, c, v), m) == if m == c then v else Next(fat, m)
  {
    var b := Bytes16(v);
    assert Le16(b, 0) == v;
  }

  // ---- chains ----------------------------------------------------------------------------------

  /** fatput's chain(): at most `bound` clusters; None when a link leaves the FAT. */
  function ChainFrom(fat: seq<byte>, c: nat, bound: nat): Option<seq<nat>>
    decreases bound
  {
    if bound == 0 || !InFile(c) then Some([])
    else if c * 2 + 2 > |fat| then None
    else
      var rest := ChainFrom(fat, Next(fat, c), bound - 1);
      if rest.None? then None else Some([c] + rest.value)
  }

  ghost function Before(s: seq<nat>, rest: Option<seq<nat>>): Option<seq<nat>> {
    if rest.None? then None else Some(s + rest.value)
  }

  lemma ChainStep(fat: seq<byte>, c: nat, bound: nat, s: seq<nat>)
    ensures bound == 0 || !InFile(c) ==> Before(s, ChainFrom(fat, c, bound)) == Some(s)
    ensures bound > 0 && InFile(c) ==>
              Before(s, ChainFrom(fat, c, bound)) ==
              if c * 2 + 2 > |fat| then None else Before(s + [c], ChainFrom(fat, Next(fat, c), bound - 1))
  {
    assert s + [] == s;
    if bound > 0 && InFile(c) && c * 2 + 2 <= |fat| {
      var rest := ChainFrom(fat, Next(fat, c), bound - 1);
      assert rest.Some? ==> s + ([c] + rest.value) == (s + [c]) + rest.value;
    }
  }

  /** `ch` is a whole chain of the FAT: linked in order, without repetition, ended by a mark that is
      neither a cluster nor free. */
  ghost predicate IsChain(fat: seq<byte>, ch: seq<nat>) {
    && ch != [] && Distinct(ch)
    && (forall i :: 0 <= i < |ch| ==> InFile(ch[i]) && ch[i] * 2 + 2 <= |fat|)
    && (forall i :: 0 <= i < |ch| - 1 ==> Next(fat, ch[i]) == ch[i + 1])
    && !InFile(Next(fat, ch[|ch| - 1])) && Next(fat, ch[|ch| - 1]) != FREE
  }

  ghost predicate Apart(a: seq<nat>, b: seq<nat>) {
    forall i, j :: 0 <= i < |a| && 0 <= j < |b| ==> a[i] != b[j]
  }

  /** The loop bound never cuts a chain short: a chain cannot be longer than the FAT has clusters. */
  lemma ChainIsRead(fat: seq<byte>, ch: seq<nat>)
    requires IsChain(fat, ch)
    ensures ChainFrom(fat, ch[0], CHAIN_MAX) == Some(ch)
  {
    DistinctBound(ch, 0xFFF8);
    ChainTailIsRead(fat, ch, 0, CHAIN_MAX);
  }

  lemma {:induction false} ChainTailIsRead(fat: seq<byte>, ch: seq<nat>, i: nat, bound: nat)
    requires IsChain(fat, ch) && i < |ch| && bound > |ch| - i
    ensures ChainFrom(fat, ch[i], bound) == Some(ch[i..])
    decreases |ch| - i
  {
    if i + 1 < |ch| {
      ChainTailIsRead(fat, ch, i + 1, bound - 1);
      assert ch[i..] == [ch[i]] + ch[i + 1..];
    } else {
      assert ch[i..] == [ch[i]] + [];
    }
  }

  // ---- free clusters ---------------------------------------------------------------------------

  predicate IsFree(fat: seq<byte>, c: nat)
    requires c * 2 + 2 <= |fat|
  {
    Next(fat, c) == FREE
  }

  /** The free clusters of [lo, hi), lowest first. */
  function FreeList(fat: seq<byte>, lo: nat, hi: int): (s: seq<nat>)
    requires hi * 2 <= |fat|
    ensures forall i :: 0 <= i < |s| ==> lo <= s[i] < hi && IsFree(fat, s[i])
    ensures forall i, j :: 0 <= i < j < |s| ==> s[i] < s[j]
    decreases hi - lo
  {
    if lo >= hi then []
    else (if IsFree(fat, lo) then [lo] else []) + FreeList(fat, lo + 1, hi)
  }

  lemma FreeStep(fat: seq<byte>, c: nat, hi: int, s: seq<nat>)
    requires hi * 2 <= |fat|
    ensures c >= hi ==> s + FreeList(fat, c, hi) == s
    ensures c < hi ==>
              s + FreeList(fat, c, hi) == (if IsFree(fat, c) then s + [c] else s) + FreeList(fat, c + 1, hi)
  {
    if c < hi {
      assert s + ([c] + FreeList(fat, c + 1, hi)) == (s + [c]) + FreeList(fat, c + 1, hi);
    }
  }

  ghost function FreeSet(fat: seq<byte>, hi: int): set<nat>
    requires hi * 2 <= |fat|
  {
    set c: nat | 2 <= c < hi && IsFree(fat, c)
  }

  lemma {:induction false} FreeListIsAll(fat: seq<byte>, lo: nat, hi: int, c: nat)
    requires hi * 2 <= |fat| && lo <= c < hi && IsFree(fat, c)
    ensures c in FreeList(fat, lo, hi)
    decreases c - lo
  {
    if lo < c {
      FreeListIsAll(fat, lo + 1, hi, c);
    }
  }

  /** The scan lists every free cluster of the volume, and each once. */
  lemma FreeCountIs(fat: seq<byte>, hi: int)
    requires hi * 2 <= |fat|
    ensures SetOf(FreeList(fat, 2, hi)) == FreeSet(fat, hi)
    ensures Distinct(FreeList(fat, 2, hi)) && |FreeSet(fat, hi)| == |FreeList(fat, 2, hi)|
  {
    hide IsFree;
    var s := FreeList(fat, 2, hi);
    forall c: nat | c in FreeSet(fat, hi)
      ensures c in s
    {
      FreeListIsAll(fat, 2, hi, c);
    }
    SetOfDistinct(s);
  }

  // ---- what write_file does --------------------------------------------------------------------

  /** The first `n` of the links froms[i] -> tos[i]. */
  function Linked(fat: seq<byte>, froms: seq<nat>, tos: seq<nat>, n: nat): (r: seq<byte>)
    requires n <= |tos| <= |froms|
    requires forall i :: 0 <= i < n ==> froms[i] * 2 + 2 <= |fat| && tos[i] < 0x1_0000
    ensures |r| == |fat|
  {
    if n == 0 then fat else SetNext(Linked(fat, froms, tos, n - 1), froms[n - 1], tos[n - 1])
  }

  function Freed(fat: seq<byte>, cs: seq<nat>, n: nat): (r: seq<byte>)
    requires n <= |cs| && forall i :: 0 <= i < n ==> cs[i] * 2 + 2 <= |fat|
    ensures |r| == |fat|
  {
    if n == 0 then fat else SetNext(Freed(fat, cs, n - 1), cs[n - 1], FREE)
  }

  predicate AllIn(fat: seq<byte>, cs: seq<nat>) {
    forall i :: 0 <= i < |cs| ==> 2 <= cs[i] < 0x1_0000 && cs[i] * 2 + 2 <= |fat|
  }

  function Tail(have: seq<nat>): seq<nat> { if have == [] then [] else [have[|have| - 1]] }

  /** The links of a chain that grows by `extra`. */
  function Grown(fat: seq<byte>, have: seq<nat>, extra: seq<nat>): (r: seq<byte>)
    requires extra != [] && AllIn(fat, have) && AllIn(fat, extra)
    ensures |r| == |fat|
  {
    SetNext(Linked(fat, Tail(have) + extra, extra, |extra|), extra[|extra| - 1], EOC)
  }

  /** The links of a chain cut to its first `need` clusters. */
  function Shrunk(fat: seq<byte>, have: seq<nat>, need: nat): (r: seq<byte>)
    requires 0 < need < |have| && AllIn(fat, have)
    ensures |r| == |fat|
  {
    SetNext(Freed(fat, have[need..], |have| - need), have[need - 1], EOC)
  }

  function Need(g: Geometry, size: nat): (n: nat)
    requires g.Per() > 0
    ensures n > 0
  {
    var n := (size + g.Per() - 1) / g.Per();
    if n > 1 then n else 1
  }

  datatype Relinked = Relinked(fat: seq<byte>, chain: seq<nat>)

  /** The FAT and the chain after resizing; None when there are not enough free clusters. */
  function Resized(g: Geometry, fat: seq<byte>, have: seq<nat>, need: nat): Option<Relinked>
    requires g.bps > 0 && g.spc > 0 && need > 0 && AllIn(fat, have) && |fat| <= 0x2_0000
  {
    var free := FreeList(fat, 2, g.Limit(|fat|));
    if need > |have| then
      var n := need - |have|;
      if |free| < n then None
      else Some(Relinked(Grown(fat, have, free[..n]), have + free[..n]))
    else if need < |have| then Some(Relinked(Shrunk(fat, have, need), have[..need]))
    else Some(Relinked(fat, have))
  }

  /** The first `n` FAT copies written. */
  function Flushed(g: Geometry, img: seq<byte>, fat: seq<byte>, n: nat): (r: seq<byte>)
    requires g.bps > 0 && n <= g.nfat && |fat| == g.spf * 512 && g.DataStart() * 512 <= |img|
    ensures |r| == |img|
  {
    if n == 0 then img
    else
      CopyFits(g, n - 1);
      Splice(Flushed(g, img, fat, n - 1), g.CopyAt(n - 1), fat)
  }

  lemma FlushStep(g: Geometry, img: seq<byte>, fat: seq<byte>, n: nat)
    requires g.bps > 0 && n <= g.nfat && |fat| == g.spf * 512 && g.DataStart() * 512 <= |img|
    ensures Flushed(g, img, fat, 0) == img
    ensures n > 0 ==>
              && g.CopyAt(n - 1) + |fat| <= |img|
              && Flushed(g, img, fat, n) == Splice(Flushed(g, img, fat, n - 1), g.CopyAt(n - 1), fat)
  {
    if n > 0 {
      CopyFits(g, n - 1);
    }
  }

  lemma CopyFits(g: Geometry, i: nat)
    requires g.bps > 0 && i < g.nfat
    ensures g.CopyAt(i) + g.spf * 512 <= g.RootStart() * 512 <= g.DataStart() * 512
  {
    BlockBound(i, g.nfat, g.spf);
    Ceiling(g.roote * 32, g.bps);
  }

  lemma Ceiling(n: nat, c: nat)
    requires c > 0
    ensures (n + c - 1) / c >= 0
  {
    DivMod(n + c - 1, c);
  }

  /** Cluster `k` of the data, filled up with zeros. */
  function Block(data: seq<byte>, k: nat, per: nat): (b: seq<byte>)
    ensures |b| == per
  {
    var lo, hi := Min(k * per, |data|), Min(k * per + per, |data|);
    data[lo..hi] + Zeros(per - (hi - lo))
  }

  ghost predicate ClustersFit(g: Geometry, img: seq<byte>, chain: seq<nat>) {
    g.bps > 0 && forall i :: 0 <= i < |chain| ==> chain[i] >= 2 && g.At(chain[i]) + g.Per() <= |img|
  }

  /** The first `n` clusters of the chain written. */
  function Stored(g: Geometry, img: seq<byte>, chain: seq<nat>, data: seq<byte>, n: nat): (r: seq<byte>)
    requires n <= |chain| && ClustersFit(g, img, chain)
    ensures |r| == |img|
  {
    if n == 0 then img
    else Splice(Stored(g, img, chain, data, n - 1), g.At(chain[n - 1]), Block(data, n - 1, g.Per()))
  }

  datatype Volume = Volume(img: seq<byte>, fat: seq<byte>, chain: seq<nat>)

  /** The whole of write_file behind find_entry: `have` is the file's chain, `entry` the position of
      its directory entry. */
  function Rewritten(g: Geometry, img: seq<byte>, fat: seq<byte>, have: seq<nat>, data: seq<byte>, entry: nat): Option<Volume>
    requires Fits(g, img, fat) && Placed(g, fat, have) && g.Per() > 0
    requires |data| < WORD && entry + 32 <= |img|
  {
    var r := Resized(g, fat, have, Need(g, |data|));
    if r.None? then None
    else
      ResizedFits(g, img, fat, have, Need(g, |data|));
      var flushed := Flushed(g, img, r.value.fat, g.nfat);
      var stored := Stored(g, flushed, r.value.chain, data, |r.value.chain|);
      Some(Volume(Splice(stored, entry + 28, Bytes32(|data|)), r.value.fat, r.value.chain))
  }

  lemma FreeFits(g: Geometry, fat: seq<byte>, n: nat)
    requires g.bps > 0 && g.spc > 0 && |fat| <= 0x2_0000
    ensures var free := FreeList(fat, 2, g.Limit(|fat|)); n <= |free| ==> AllIn(fat, free[..n])
  {
  }

  ghost predicate Placed(g: Geometry, fat: seq<byte>, cs: seq<nat>) {
    && g.bps > 0 && g.spc > 0 && AllIn(fat, cs) && |fat| <= 0x2_0000
    && forall i :: 0 <= i < |cs| ==> cs[i] < g.Limit(|fat|)
  }

  lemma ResizedFits(g: Geometry, img: seq<byte>, fat: seq<byte>, have: seq<nat>, need: nat)
    requires Fits(g, img, fat) && Placed(g, fat, have) && need > 0
    ensures var r := Resized(g, fat, have, need);
            r.Some? ==> |r.value.chain| == need && |r.value.fat| == |fat|
                        && Placed(g, r.value.fat, r.value.chain) && ClustersFit(g, img, r.value.chain)
  {
    hide FreeList, Grown, Shrunk;
  }

  // ---- the tool itself -------------------------------------------------------------------------

  class Fat16 {
    const g: Geometry
    var img: seq<byte>
    var fat: seq<byte>

    constructor (geometry: Geometry, image: seq<byte>, table: seq<byte>)
      ensures g == geometry && img == image && fat == table
    {
      g, img, fat := geometry, image, table;
    }

    method Chain(first: nat) returns (out: Option<seq<nat>>)
      ensures out == ChainFrom(fat, first, CHAIN_MAX)
    {
      hide ChainFrom;
      var s: seq<nat>, c: nat := [], first;
      ghost var whole := ChainFrom(fat, first, CHAIN_MAX);
      assert whole.Some? ==> [] + whole.value == whole.value;
      while InFile(c) && |s| < CHAIN_MAX
        invariant |s| <= CHAIN_MAX
        invariant whole == Before(s, ChainFrom(fat, c, CHAIN_MAX - |s|))
        decreases CHAIN_MAX - |s|
      {
        ChainStep(fat, c, CHAIN_MAX - |s|, s);
        if c * 2 + 2 > |fat| {
          return None;
        }
        s := s + [c];
        c := Next(fat, c);
      }
      ChainStep(fat, c, CHAIN_MAX - |s|, s);
      out := Some(s);
    }

    method SetLink(c: nat, v: u16)
      requires c * 2 + 2 <= |fat|
      modifies this`fat
      ensures fat == SetNext(old(fat), c, v)
    {
      fat := fat[c * 2 := v % 0x100][c * 2 + 1 := v / 0x100];
    }

    /** `want` free clusters, lowest first; None, which ends the program, if there are fewer. */
    method FreeClusters(want: nat) returns (out: Option<seq<nat>>)
      requires want > 0 && g.bps > 0 && g.spc > 0
      ensures var free := FreeList(fat, 2, g.Limit(|fat|));
              out == if |free| < want then None else Some(free[..want])
    {
      hide FreeList, IsFree, Geometry.DataStart;
      var limit := g.Limit(|fat|);
      var s: seq<nat>, c := [], 2;
      ghost var free := FreeList(fat, 2, limit);
      while c < limit
        invariant 2 <= c && |s| < want
        invariant free == s + FreeList(fat, c, limit)
        decreases limit - c
      {
        FreeStep(fat, c, limit, s);
        if IsFree(fat, c) {
          s := s + [c];
          if |s| == want {
            assert free[..want] == s;
            return Some(s);
          }
        }
        c := c + 1;
      }
      FreeStep(fat, c, limit, s);
      out := None;
    }

    method FlushFat()
      requires g.bps > 0 && |fat| == g.spf * 512 && g.DataStart() * 512 <= |img|
      modifies this`img
      ensures img == Flushed(g, old(img), fat, g.nfat)
    {
      hide Flushed, Geometry.DataStart, Geometry.RootStart, Geometry.CopyAt, Splice;
      FlushStep(g, img, fat, 0);
      for i := 0 to g.nfat
        invariant img == Flushed(g, old(img), fat, i)
      {
        CopyFits(g, i);
        FlushStep(g, old(img), fat, i + 1);
        img := Splice(img, g.CopyAt(i), fat);
      }
    }

    /** None: a link left the FAT, or the disk is full; nothing has been written then. */
    method WriteFile(entry: nat, first: nat, data: seq<byte>) returns (chain: Option<seq<nat>>)
      requires Fits(g, img, fat) && g.Per() > 0 && |data| < WORD && entry + 32 <= |img|
      requires var have := ChainFrom(fat, first, CHAIN_MAX); have.Some? ==> Placed(g, fat, have.value)
      modifies this`img, this`fat
      ensures var have := ChainFrom(old(fat), first, CHAIN_MAX);
              var r := if have.None? then None else Rewritten(g, old(img), old(fat), have.value, data, entry);
              if r.None? then chain.None? && img == old(img) && fat == old(fat)
              else chain == Some(r.value.chain) && img == r.value.img && fat == r.value.fat
    {
      hide ChainFrom, FreeList, Flushed, Stored, Block, Need;
      var have := Chain(first);
      if have.None? {
        return None;
      }
      var per := g.Per();
      var need := NeedOf(|data|);
      var resized := Resize(have.value, need);
      if resized.None? {
        return None;
      }
      ResizedFits(g, img, old(fat), have.value, need);
      FlushFat();
      WriteClusters(resized.value, data);
      img := Splice(img, entry + 28, Bytes32(|data|));
      chain := resized;
    }

    method NeedOf(size: nat) returns (need: nat)
      requires g.Per() > 0
      ensures need == Need(g, size) > 0
    {
      need := (size + g.Per() - 1) / g.Per();
      if need < 1 {
        need := 1;
      }
    }

    /** Relink: append free clusters, or cut the tail and free it. */
    method Resize(have: seq<nat>, need: nat) returns (chain: Option<seq<nat>>)
      requires Fits(g, img, fat) && Placed(g, fat, have) && need > 0
      modifies this`fat
      ensures var r := Resized(g, old(fat), have, need);
              if r.None? then chain.None? && fat == old(fat) else chain == Some(r.value.chain) && fat == r.value.fat
    {
      hide Geometry.Limit, Geometry.DataStart, Geometry.At, Grown, Shrunk, FreeList;
      if need > |have| {
        var extra := FreeClusters(need - |have|);
        if extra.None? {
          return None;
        }
        FreeFits(g, fat, need - |have|);
        LinkExtra(have, extra.value);
        chain := Some(have + extra.value);
      } else if need < |have| {
        FreeTail(have, need);
        chain := Some(have[..need]);
      } else {
        chain := Some(have);
      }
    }

    method LinkExtra(have: seq<nat>, extra: seq<nat>)
      requires extra != [] && AllIn(fat, have) && AllIn(fat, extra)
      modifies this`fat
      ensures fat == Grown(old(fat), have, extra)
    {
      hide SetNext;
      var froms := Tail(have) + extra;
      for i := 0 to |extra|
        invariant fat == Linked(old(fat), froms, extra, i)
      {
        SetLink(froms[i], extra[i]);
      }
      SetLink(extra[|extra| - 1], EOC);
    }

    method FreeTail(have: seq<nat>, need: nat)
      requires 0 < need < |have| && AllIn(fat, have)
      modifies this`fat
      ensures fat == Shrunk(old(fat), have, need)
    {
      hide SetNext;
      var dropped := have[need..];
      for i := 0 to |dropped|
        invariant fat == Freed(old(fat), dropped, i)
      {
        SetLink(dropped[i], FREE);
      }
      SetLink(have[need - 1], EOC);
    }

    method WriteClusters(chain: seq<nat>, data: seq<byte>)
      requires ClustersFit(g, img, chain)
      modifies this`img
      ensures img == Stored(g, old(img), chain, data, |chain|)
    {
      hide Block;
      for k := 0 to |chain|
        invariant img == Stored(g, old(img), chain, data, k)
      {
        img := Splice(img, g.At(chain[k]), Block(data, k, g.Per()));
      }
    }
  }
}
