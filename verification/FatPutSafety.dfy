/** What fatput's write_file keeps: the file's own chain, every other chain and file, the count of
    free clusters and the agreement of the FAT copies. */
module FatPutSafety {
  import opened Words
  import opened Arithmetic
  import opened Counting
  import opened FatPut

  // ---- links -----------------------------------------------------------------------------------

  lemma {:induction false} LinkedHits(fat: seq<byte>, froms: seq<nat>, tos: seq<nat>, n: nat, i: nat)
    requires i < n <= |tos| <= |froms| && Distinct(froms)
    requires forall k :: 0 <= k < n ==> froms[k] * 2 + 2 <= |fat| && tos[k] < 0x1_0000
    ensures Next(Linked(fat, froms, tos, n), froms[i]) == tos[i]
    decreases n
  {
    hide Next, SetNext;
    SetNextChangesOne(Linked(fat, froms, tos, n - 1), froms[n - 1], tos[n - 1], froms[i]);
    if i < n - 1 {
      LinkedHits(fat, froms, tos, n - 1, i);
    }
  }

  lemma {:induction false} LinkedMisses(fat: seq<byte>, froms: seq<nat>, tos: seq<nat>, n: nat, m: nat)
    requires n <= |tos| <= |froms| && m * 2 + 2 <= |fat|
    requires forall k :: 0 <= k < n ==> froms[k] * 2 + 2 <= |fat| && tos[k] < 0x1_0000 && froms[k] != m
    ensures Next(Linked(fat, froms, tos, n), m) == Next(fat, m)
    decreases n
  {
    hide Next, SetNext;
    if n > 0 {
      SetNextChangesOne(Linked(fat, froms, tos, n - 1), froms[n - 1], tos[n - 1], m);
      LinkedMisses(fat, froms, tos, n - 1, m);
    }
  }

  lemma {:induction false} FreedAt(fat: seq<byte>, cs: seq<nat>, n: nat, m: nat)
    requires n <= |cs| && m * 2 + 2 <= |fat| && forall i :: 0 <= i < n ==> cs[i] * 2 + 2 <= |fat|
    ensures Next(Freed(fat, cs, n), m) == if m in cs[..n] then FREE else Next(fat, m)
    decreases n
  {
    hide Next, SetNext;
    if n > 0 {
      SetNextChangesOne(Freed(fat, cs, n - 1), cs[n - 1], FREE, m);
      FreedAt(fat, cs, n - 1, m);
      assert cs[..n] == cs[..n - 1] + [cs[n - 1]];
    }
  }

  lemma ChainIsUsed(fat: seq<byte>, ch: seq<nat>, i: nat)
    requires IsChain(fat, ch) && i < |ch|
    ensures 2 <= ch[i] < 0xFFF8 && ch[i] * 2 + 2 <= |fat| && Next(fat, ch[i]) != FREE
  {
    hide Next;
    if i < |ch| - 1 {
      assert InFile(ch[i + 1]);
    }
  }

  ghost predicate Fresh(fat: seq<byte>, extra: seq<nat>) {
    && extra != [] && Distinct(extra)
    && forall i :: 0 <= i < |extra| ==> InFile(extra[i]) && extra[i] * 2 + 2 <= |fat| && Next(fat, extra[i]) == FREE
  }

  lemma FreshIsApart(fat: seq<byte>, ch: seq<nat>, extra: seq<nat>)
    requires IsChain(fat, ch) && Fresh(fat, extra)
    ensures AllIn(fat, ch) && AllIn(fat, extra) && Apart(ch, extra)
  {
    hide Next;
    forall i | 0 <= i < |ch|
      ensures 2 <= ch[i] < 0x1_0000 && ch[i] * 2 + 2 <= |fat| && Next(fat, ch[i]) != FREE
    {
      ChainIsUsed(fat, ch, i);
    }
  }

  /** The FAT's word after cluster `i` of a chain ended by EOC. */
  function After(ch: seq<nat>, i: nat): nat { if i + 1 < |ch| then ch[i + 1] else EOC }

  /** The added clusters `extra` are linked from `froms`: the chain's last cluster and themselves. */
  ghost predicate Linking(fat: seq<byte>, froms: seq<nat>, extra: seq<nat>) {
    && extra != [] && |froms| == |extra| + 1 && Distinct(froms)
    && forall k :: 0 <= k < |extra| ==>
         froms[k] * 2 + 2 <= |fat| && froms[k + 1] == extra[k] < 0x1_0000 && extra[k] * 2 + 2 <= |fat|
  }

  lemma GrownLinks(fat: seq<byte>, have: seq<nat>, extra: seq<nat>)
    requires IsChain(fat, have) && Fresh(fat, extra) && AllIn(fat, have) && AllIn(fat, extra)
    ensures have != [] && Linking(fat, Tail(have) + extra, extra) && (Tail(have) + extra)[0] == have[|have| - 1]
  {
    hide Next, InFile;
    FreshIsApart(fat, have, extra);
    NotEmpty(fat, have);
  }

  /** The links of the added clusters, in order, and the end mark. */
  lemma GrownExtra(fat: seq<byte>, have: seq<nat>, extra: seq<nat>, i: nat)
    requires IsChain(fat, have) && Fresh(fat, extra) && AllIn(fat, have) && AllIn(fat, extra) && i < |extra|
    ensures Next(Grown(fat, have, extra), extra[i]) == After(extra, i)
  {
    hide Next, SetNext, Linked, Linking, After;
    GrownLinks(fat, have, extra);
    LinkedExtra(fat, Tail(have) + extra, extra, i);
  }

  lemma LinkedExtra(fat: seq<byte>, froms: seq<nat>, extra: seq<nat>, i: nat)
    requires Linking(fat, froms, extra) && i < |extra|
    ensures Next(SetNext(Linked(fat, froms, extra, |extra|), extra[|extra| - 1], EOC), extra[i]) == After(extra, i)
  {
    hide Next, SetNext, Linked;
    var n := |extra|;
    SetNextChangesOne(Linked(fat, froms, extra, n), extra[n - 1], EOC, extra[i]);
    if i + 1 < n {
      assert froms[i + 1] == extra[i] && froms[n] == extra[n - 1];
      LinkedHits(fat, froms, extra, n, i + 1);
    }
  }

  /** Every other entry of the FAT after a chain has grown. */
  lemma GrownAt(fat: seq<byte>, have: seq<nat>, extra: seq<nat>, m: nat)
    requires IsChain(fat, have) && Fresh(fat, extra) && m * 2 + 2 <= |fat| && m !in extra
    requires AllIn(fat, have) && AllIn(fat, extra)
    ensures Next(Grown(fat, have, extra), m) == if m == have[|have| - 1] then extra[0] else Next(fat, m)
  {
    hide Next, SetNext, Linked, Linking;
    GrownLinks(fat, have, extra);
    LinkedOthers(fat, Tail(have) + extra, extra, m);
  }

  lemma LinkedOthers(fat: seq<byte>, froms: seq<nat>, extra: seq<nat>, m: nat)
    requires Linking(fat, froms, extra) && m * 2 + 2 <= |fat| && m !in extra
    ensures Next(SetNext(Linked(fat, froms, extra, |extra|), extra[|extra| - 1], EOC), m) ==
            if m == froms[0] then extra[0] else Next(fat, m)
  {
    hide Next, SetNext, Linked;
    var n := |extra|;
    SetNextChangesOne(Linked(fat, froms, extra, n), extra[n - 1], EOC, m);
    if m == froms[0] {
      LinkedHits(fat, froms, extra, n, 0);
    } else {
      forall k | 0 <= k < n
        ensures froms[k] != m
      {
        assert k > 0 ==> froms[k] == extra[k - 1];
      }
      LinkedMisses(fat, froms, extra, n, m);
    }
  }

  lemma LinksMakeChain(fat: seq<byte>, ch: seq<nat>)
    requires ch != [] && Distinct(ch)
    requires forall i :: 0 <= i < |ch| ==> InFile(ch[i]) && ch[i] * 2 + 2 <= |fat|
    requires forall i :: 0 <= i < |ch| ==> Next(fat, ch[i]) == After(ch, i)
    ensures IsChain(fat, ch)
  {
    hide Next;
    assert Next(fat, ch[|ch| - 1]) == After(ch, |ch| - 1);
  }

  lemma GrownIsChain(fat: seq<byte>, have: seq<nat>, extra: seq<nat>)
    requires IsChain(fat, have) && Fresh(fat, extra) && AllIn(fat, have) && AllIn(fat, extra)
    ensures IsChain(Grown(fat, have, extra), have + extra)
  {
    hide Next, Grown;
    FreshIsApart(fat, have, extra);
    forall i | 0 <= i < |have + extra|
      ensures Next(Grown(fat, have, extra), (have + extra)[i]) == After(have + extra, i)
    {
      GrownLink(fat, have, extra, i);
    }
    LinksMakeChain(Grown(fat, have, extra), have + extra);
  }

  lemma GrownLink(fat: seq<byte>, have: seq<nat>, extra: seq<nat>, i: nat)
    requires IsChain(fat, have) && Fresh(fat, extra) && AllIn(fat, have) && AllIn(fat, extra) && i < |have + extra|
    ensures Next(Grown(fat, have, extra), (have + extra)[i]) == After(have + extra, i)
  {
    hide Next, Grown;
    FreshIsApart(fat, have, extra);
    var ch, k := have + extra, |have|;
    if i >= k {
      GrownExtra(fat, have, extra, i - k);
    } else {
      GrownAt(fat, have, extra, have[i]);
      assert i < k - 1 ==> have[i] != have[k - 1];
    }
  }

  /** A chain none of whose clusters has been relinked is still a chain. */
  lemma SameLinksSameChain(fat: seq<byte>, now: seq<byte>, ch: seq<nat>)
    requires IsChain(fat, ch) && |now| == |fat|
    requires forall i :: 0 <= i < |ch| ==> ch[i] * 2 + 2 <= |fat| && Next(now, ch[i]) == Next(fat, ch[i])
    ensures IsChain(now, ch)
  {
    hide Next;
  }

  lemma ShrunkAt(fat: seq<byte>, have: seq<nat>, need: nat, m: nat)
    requires IsChain(fat, have) && 0 < need < |have| && AllIn(fat, have) && m * 2 + 2 <= |fat|
    ensures Next(Shrunk(fat, have, need), m) ==
            if m == have[need - 1] then EOC else if m in have[need..] then FREE else Next(fat, m)
  {
    hide Next, SetNext;
    var dropped := have[need..];
    SetNextChangesOne(Freed(fat, dropped, |dropped|), have[need - 1], EOC, m);
    FreedAt(fat, dropped, |dropped|, m);
    assert dropped[..|dropped|] == dropped;
  }

  lemma ShrunkIsChain(fat: seq<byte>, have: seq<nat>, need: nat)
    requires IsChain(fat, have) && 0 < need < |have| && AllIn(fat, have)
    ensures IsChain(Shrunk(fat, have, need), have[..need])
  {
    hide Next, Shrunk;
    forall i | 0 <= i < need
      ensures Next(Shrunk(fat, have, need), have[..need][i]) == After(have[..need], i)
    {
      ShrunkAt(fat, have, need, have[i]);
      if i + 1 < need {
        assert have[i] != have[need - 1];
        assert have[i] !in have[need..];
      }
    }
    LinksMakeChain(Shrunk(fat, have, need), have[..need]);
  }

  // ---- resizing --------------------------------------------------------------------------------

  lemma FreeIsFresh(g: Geometry, fat: seq<byte>, n: nat)
    requires g.bps > 0 && g.spc > 0 && 0 < n <= |FreeList(fat, 2, g.Limit(|fat|))| && g.Limit(|fat|) <= 0xFFF8
    ensures Fresh(fat, FreeList(fat, 2, g.Limit(|fat|))[..n])
  {
    hide Geometry.DataStart;
  }

  /** A file of this chain on this volume, its clusters among those the tool allocates from.  A FAT16
      volume has at most 65,524 clusters. */
  ghost predicate Sound(g: Geometry, fat: seq<byte>, have: seq<nat>) {
    && Placed(g, fat, have) && IsChain(fat, have) && g.Limit(|fat|) <= 0xFFF8
  }

  /** Resizing leaves a sound chain of the size asked for that starts where the file did. */
  lemma ResizedIsChain(g: Geometry, fat: seq<byte>, have: seq<nat>, need: nat)
    requires Sound(g, fat, have) && need > 0
    ensures var r := Resized(g, fat, have, need);
            r.Some? ==>
              && |r.value.fat| == |fat| && |r.value.chain| == need && r.value.chain[0] == have[0]
              && IsChain(r.value.fat, r.value.chain)
              && (need != |have| ==> r.value.chain[need - 1] * 2 + 2 <= |fat| && Next(r.value.fat, r.value.chain[need - 1]) == 0xFFFF)
  {
    hide Geometry.Limit, Grown, Shrunk, IsChain, FreeList, AllIn;
    ResizedEnds(g, fat, have, need);
    if need > |have| {
      var free, n := FreeList(fat, 2, g.Limit(|fat|)), need - |have|;
      if n <= |free| {
        FreeIsFresh(g, fat, n);
        FreeFits(g, fat, n);
        GrownIsChain(fat, have, free[..n]);
      }
    } else if need < |have| {
      ShrunkIsChain(fat, have, need);
    }
    NotEmpty(fat, have);
  }

  /** A chain that was changed is closed with 0xFFFF. */
  lemma ResizedEnds(g: Geometry, fat: seq<byte>, have: seq<nat>, need: nat)
    requires Placed(g, fat, have) && need > 0
    ensures var r := Resized(g, fat, have, need);
            r.Some? && need != |have| ==>
              |r.value.chain| == need && |r.value.fat| == |fat| && r.value.chain[need - 1] * 2 + 2 <= |fat|
              && Next(r.value.fat, r.value.chain[need - 1]) == 0xFFFF
  {
    hide Geometry.Limit, FreeList, Next, Grown, Shrunk;
    if need > |have| {
      var free, n := FreeList(fat, 2, g.Limit(|fat|)), need - |have|;
      if n <= |free| {
        FreeFits(g, fat, n);
        GrownEnds(fat, have, free[..n]);
      }
    } else if need < |have| {
      ShrunkEnds(fat, have, need);
    }
  }

  lemma GrownEnds(fat: seq<byte>, have: seq<nat>, extra: seq<nat>)
    requires extra != [] && AllIn(fat, have) && AllIn(fat, extra)
    ensures Next(Grown(fat, have, extra), extra[|extra| - 1]) == 0xFFFF
  {
    hide Next, SetNext;
    var last := extra[|extra| - 1];
    SetNextChangesOne(Linked(fat, Tail(have) + extra, extra, |extra|), last, EOC, last);
  }

  lemma ShrunkEnds(fat: seq<byte>, have: seq<nat>, need: nat)
    requires 0 < need < |have| && AllIn(fat, have)
    ensures Next(Shrunk(fat, have, need), have[need - 1]) == 0xFFFF
  {
    hide Next, SetNext;
    SetNextChangesOne(Freed(fat, have[need..], |have| - need), have[need - 1], EOC, have[need - 1]);
  }

  lemma NotEmpty(fat: seq<byte>, ch: seq<nat>)
    ensures IsChain(fat, ch) ==> ch != []
  {
  }

  /** Every other chain survives, disjoint from the resized one. */
  lemma ResizeKeepsChains(g: Geometry, fat: seq<byte>, have: seq<nat>, need: nat, other: seq<nat>)
    requires Sound(g, fat, have) && need > 0
    requires IsChain(fat, other) && Apart(have, other)
    ensures var r := Resized(g, fat, have, need);
            r.Some? ==> IsChain(r.value.fat, other) && Apart(r.value.chain, other)
  {
    hide Geometry.Limit, Geometry.DataStart, Grown, Shrunk, IsChain, Next, FreeList, Fresh;
    var limit := g.Limit(|fat|);
    forall i | 0 <= i < |other|
      ensures other[i] * 2 + 2 <= |fat| && Next(fat, other[i]) != FREE
    {
      ChainIsUsed(fat, other, i);
    }
    NotEmpty(fat, have);
    if need > |have| {
      var free, n := FreeList(fat, 2, limit), need - |have|;
      if n <= |free| {
        FreeIsFresh(g, fat, n);
        FreeFits(g, fat, n);
        forall i | 0 <= i < |other|
          ensures Next(Grown(fat, have, free[..n]), other[i]) == Next(fat, other[i]) && other[i] !in free[..n]
        {
          FreshIsNot(fat, free[..n], other[i]);
          GrownAt(fat, have, free[..n], other[i]);
        }
        SameLinksSameChain(fat, Grown(fat, have, free[..n]), other);
      }
    } else if need < |have| {
      forall i | 0 <= i < |other|
        ensures Next(Shrunk(fat, have, need), other[i]) == Next(fat, other[i])
      {
        ShrunkAt(fat, have, need, other[i]);
      }
      SameLinksSameChain(fat, Shrunk(fat, have, need), other);
    }
  }

  lemma FreshIsNot(fat: seq<byte>, extra: seq<nat>, c: nat)
    requires Fresh(fat, extra) && c * 2 + 2 <= |fat| && Next(fat, c) != FREE
    ensures c !in extra
  {
  }

  /** The number of free clusters changes by exactly what the chain gained or lost, and resizing
      fails exactly when there are too few. */
  lemma ResizeCountsFree(g: Geometry, fat: seq<byte>, have: seq<nat>, need: nat)
    requires Sound(g, fat, have) && need > 0
    ensures var r, limit := Resized(g, fat, have, need), g.Limit(|fat|);
            && (r.Some? <==> need <= |have| + |FreeSet(fat, limit)|)
            && (r.Some? ==> |r.value.fat| == |fat| && |FreeSet(r.value.fat, limit)| == |FreeSet(fat, limit)| + |have| - need)
  {
    hide Geometry.Limit, Geometry.DataStart, Grown, Shrunk, Next, IsChain, FreeList, FreeSet, AllIn, Apart;
    var limit := g.Limit(|fat|);
    FreeCountIs(fat, limit);
    if need > |have| {
      var free, n := FreeList(fat, 2, limit), need - |have|;
      if n <= |free| {
        FreeIsFresh(g, fat, n);
        FreeFits(g, fat, n);
        FreeSetAfterGrow(fat, have, free[..n], limit);
      }
    } else if need < |have| {
      FreeSetAfterShrink(fat, have, need, limit);
    }
  }

  lemma FreeSetAfterGrow(fat: seq<byte>, have: seq<nat>, extra: seq<nat>, limit: int)
    requires IsChain(fat, have) && Fresh(fat, extra) && AllIn(fat, have) && AllIn(fat, extra) && limit * 2 <= |fat|
    requires forall i :: 0 <= i < |extra| ==> extra[i] < limit
    ensures |FreeSet(Grown(fat, have, extra), limit)| == |FreeSet(fat, limit)| - |extra|
  {
    hide Grown, IsChain, Fresh, IsFree;
    FreshIsApart(fat, have, extra);
    FreshIsDistinct(fat, extra);
    var was, left, gone := FreeSet(fat, limit), FreeSet(Grown(fat, have, extra), limit), SetOf(extra);
    forall c: nat | c < limit
      ensures c in left <==> c in was && c !in gone
      ensures c in gone ==> c in was
    {
      FreeAfterGrow(fat, have, extra, c);
    }
    assert left == was - gone && gone <= was;
    SetOfDistinct(extra);
  }

  lemma FreshIsDistinct(fat: seq<byte>, extra: seq<nat>)
    ensures Fresh(fat, extra) ==> Distinct(extra) && extra != []
  {
  }

  lemma FreeAfterGrow(fat: seq<byte>, have: seq<nat>, extra: seq<nat>, c: nat)
    requires IsChain(fat, have) && Fresh(fat, extra) && AllIn(fat, have) && AllIn(fat, extra) && c * 2 + 2 <= |fat|
    ensures IsFree(Grown(fat, have, extra), c) <==> IsFree(fat, c) && c !in extra
    ensures c in extra ==> IsFree(fat, c)
  {
    hide Next, Grown, IsChain, Apart, AllIn;
    NotEmpty(fat, have);
    ChainIsUsed(fat, have, |have| - 1);
    if c in extra {
      var i :| 0 <= i < |extra| && extra[i] == c;
      GrownExtra(fat, have, extra, i);
      assert i + 1 < |extra| ==> InFile(extra[i + 1]);
    } else {
      GrownAt(fat, have, extra, c);
      assert InFile(extra[0]);
    }
  }

  lemma FreeSetAfterShrink(fat: seq<byte>, have: seq<nat>, need: nat, limit: int)
    requires IsChain(fat, have) && 0 < need < |have| && AllIn(fat, have) && limit * 2 <= |fat|
    requires forall i :: 0 <= i < |have| ==> have[i] < limit
    ensures |FreeSet(Shrunk(fat, have, need), limit)| == |FreeSet(fat, limit)| + |have| - need
  {
    hide Shrunk, IsChain, IsFree;
    var was, left := FreeSet(fat, limit), FreeSet(Shrunk(fat, have, need), limit);
    var dropped := have[need..];
    var more := SetOf(dropped);
    forall c: nat | c < limit
      ensures c in left <==> c in was || c in more
      ensures !(c in was && c in more)
    {
      FreeAfterShrink(fat, have, need, c);
    }
    assert left == was + more && was !! more;
    ChainIsDistinct(fat, have);
    assert Distinct(dropped);
    SetOfDistinct(dropped);
  }

  lemma ChainIsDistinct(fat: seq<byte>, ch: seq<nat>)
    ensures IsChain(fat, ch) ==> Distinct(ch) && AllIn(fat, ch)
  {
    hide Next;
  }

  lemma FreeAfterShrink(fat: seq<byte>, have: seq<nat>, need: nat, c: nat)
    requires IsChain(fat, have) && 0 < need < |have| && AllIn(fat, have) && c * 2 + 2 <= |fat|
    ensures IsFree(Shrunk(fat, have, need), c) <==> IsFree(fat, c) || c in have[need..]
    ensures c in have[need..] ==> !IsFree(fat, c)
  {
    hide Next, Shrunk, IsChain, AllIn;
    ShrunkAt(fat, have, need, c);
    ChainIsDistinct(fat, have);
    ChainIsUsed(fat, have, need - 1);
    if c in have[need..] {
      var i :| 0 <= i < |have| - need && have[need..][i] == c;
      ChainIsUsed(fat, have, need + i);
      assert have[need + i] != have[need - 1];
    }
  }

  /** Reading the file's chain from the first cluster its directory entry names gives the resized
      chain exactly when that entry names a cluster at all: an empty file's first cluster is not
      recorded anywhere. */
  lemma ChainIsFoundIff(g: Geometry, fat: seq<byte>, first: nat, have: seq<nat>, need: nat)
    requires ChainFrom(fat, first, CHAIN_MAX) == Some(have) && need > 0
    requires InFile(first) ==> Sound(g, fat, have)
    requires Placed(g, fat, have)
    ensures var r := Resized(g, fat, have, need);
            r.Some? ==> (ChainFrom(r.value.fat, first, CHAIN_MAX) == Some(r.value.chain) <==> InFile(first))
  {
    hide Geometry.Limit, Geometry.DataStart, Grown, Shrunk, IsChain, Next, FreeList;
    var r := Resized(g, fat, have, need);
    if InFile(first) && r.Some? {
      ResizedIsChain(g, fat, have, need);
      NotEmpty(fat, have);
      ChainIsRead(r.value.fat, r.value.chain);
      FirstOfChain(fat, first, CHAIN_MAX);
    }
  }

  lemma FirstOfChain(fat: seq<byte>, first: nat, bound: nat)
    requires bound > 0 && InFile(first) && ChainFrom(fat, first, bound).Some?
    ensures var ch := ChainFrom(fat, first, bound).value; ch != [] && ch[0] == first
  {
  }

  /** Growing nothing by two or more clusters even links each new one but the last to itself. */
  lemma EmptyChainMislinks(fat: seq<byte>, extra: seq<nat>, i: nat)
    requires Fresh(fat, extra) && AllIn(fat, extra) && i + 1 < |extra|
    ensures Next(Grown(fat, [], extra), extra[i]) == extra[i]
  {
    hide Next, SetNext;
    assert Tail([]) + extra == extra;
    LinkedHits(fat, extra, extra, |extra|, i);
    SetNextChangesOne(Linked(fat, extra, extra, |extra|), extra[|extra| - 1], EOC, extra[i]);
  }

  // ---- contents --------------------------------------------------------------------------------

  /** The bytes of a chain, cluster by cluster. */
  function ReadBack(g: Geometry, img: seq<byte>, ch: seq<nat>): (s: seq<byte>)
    requires ClustersFit(g, img, ch)
  {
    if ch == [] then []
    else
      var n := |ch| - 1;
      ReadBack(g, img, ch[..n]) + img[g.At(ch[n])..g.At(ch[n]) + g.Per()]
  }

  /** Position `p` belongs to one of the clusters. */
  ghost predicate InClusters(g: Geometry, ch: seq<nat>, p: int)
    requires g.bps > 0 && forall i :: 0 <= i < |ch| ==> ch[i] >= 2
  {
    exists i :: 0 <= i < |ch| && g.At(ch[i]) <= p < g.At(ch[i]) + g.Per()
  }

  lemma ClustersApart(g: Geometry, a: nat, b: nat)
    requires 0 < g.bps <= 512 && 2 <= a < b
    ensures g.At(a) + g.Per() <= g.At(b)
    ensures g.DataStart() * 512 <= g.At(a)
  {
    BlockBound(a - 2, b - 2, g.spc);
    MulMono(g.bps, 512, g.spc);
  }

  lemma ClusterPlace(g: Geometry, a: nat)
    requires 0 < g.bps && 2 <= a
    ensures g.DataStart() * 512 <= g.At(a)
  {
    MulMono(0, a - 2, g.spc);
  }

  lemma PrefixClusters(g: Geometry, ch: seq<nat>, n: nat, p: int)
    requires g.bps > 0 && n <= |ch| && forall i :: 0 <= i < |ch| ==> ch[i] >= 2
    requires InClusters(g, ch[..n], p)
    ensures InClusters(g, ch, p)
  {
    hide Geometry.At, Geometry.Per;
    var i :| 0 <= i < n && g.At(ch[..n][i]) <= p < g.At(ch[..n][i]) + g.Per();
    assert ch[i] == ch[..n][i];
  }

  lemma SameBytesReadBack(g: Geometry, img: seq<byte>, now: seq<byte>, ch: seq<nat>)
    requires ClustersFit(g, img, ch) && |now| == |img|
    requires forall p :: 0 <= p < |img| && InClusters(g, ch, p) ==> now[p] == img[p]
    ensures ReadBack(g, now, ch) == ReadBack(g, img, ch)
    decreases |ch|
  {
    hide Geometry.At, Geometry.Per, InClusters;
    if ch != [] {
      var n := |ch| - 1;
      forall p | 0 <= p < |img| && InClusters(g, ch[..n], p)
        ensures now[p] == img[p]
      {
        PrefixClusters(g, ch, n, p);
      }
      SameBytesReadBack(g, img, now, ch[..n]);
      SameCluster(g, img, now, ch, n);
    }
  }

  lemma SameCluster(g: Geometry, img: seq<byte>, now: seq<byte>, ch: seq<nat>, n: nat)
    requires ClustersFit(g, img, ch) && |now| == |img| && n < |ch|
    requires forall p :: 0 <= p < |img| && InClusters(g, ch, p) ==> now[p] == img[p]
    ensures now[g.At(ch[n])..g.At(ch[n]) + g.Per()] == img[g.At(ch[n])..g.At(ch[n]) + g.Per()]
  {
    hide Geometry.At, Geometry.Per;
    var at := g.At(ch[n]);
    var x, y := now[at..at + g.Per()], img[at..at + g.Per()];
    forall k | 0 <= k < |x|
      ensures x[k] == y[k]
    {
      assert g.At(ch[n]) <= at + k < g.At(ch[n]) + g.Per();
      assert InClusters(g, ch, at + k);
    }
  }

  lemma {:induction false} StoredElsewhere(g: Geometry, img: seq<byte>, ch: seq<nat>, data: seq<byte>, n: nat, p: nat)
    requires n <= |ch| && ClustersFit(g, img, ch) && p < |img| && !InClusters(g, ch, p)
    ensures Stored(g, img, ch, data, n)[p] == img[p]
    decreases n
  {
    hide Geometry.At, Geometry.Per, Block;
    if n > 0 {
      StoredElsewhere(g, img, ch, data, n - 1, p);
      assert !(g.At(ch[n - 1]) <= p < g.At(ch[n - 1]) + g.Per());
    }
  }

  /** The data, filled up to whole clusters. */
  function Padded(data: seq<byte>, size: nat): (s: seq<byte>)
    requires |data| <= size
    ensures |s| == size
  {
    data + Zeros(size - |data|)
  }

  lemma BlockOfPadded(data: seq<byte>, k: nat, per: nat, size: nat, at: nat)
    ensures |data| <= size && at == k * per && at + per <= size ==> Block(data, k, per) == Padded(data, size)[at..at + per]
  {
  }

  lemma {:induction false} StoredReadsBack(g: Geometry, img: seq<byte>, ch: seq<nat>, data: seq<byte>, n: nat)
    requires 0 < g.bps <= 512 && n <= |ch| && ClustersFit(g, img, ch) && Distinct(ch) && |data| <= |ch| * g.Per()
    ensures n * g.Per() <= |ch| * g.Per()
    ensures ClustersFit(g, img, ch[..n])
    ensures ReadBack(g, Stored(g, img, ch, data, n), ch[..n]) == Padded(data, |ch| * g.Per())[..n * g.Per()]
    decreases n
  {
    hide Geometry.At, Geometry.Per, Geometry.DataStart, Padded, Block, Stored;
    var per := g.Per();
    var size := |ch| * per;
    MulMono(n, |ch|, per);
    if n > 0 {
      var m := n - 1;
      BlockBound(m, |ch|, per);
      MulAdd(m, 1, per);
      StoredReadsBack(g, img, ch, data, m);
      var was, now := Stored(g, img, ch, data, m), Stored(g, img, ch, data, n);
      NextCluster(g, img, ch, data, m);
      SameBytesReadBack(g, was, now, ch[..m]);
      BlockOfPadded(data, m, per, size, m * per);
      assert ch[..n][..m] == ch[..m];
      assert Padded(data, size)[..n * per] == Padded(data, size)[..m * per] + Padded(data, size)[m * per..m * per + per];
    }
  }

  /** Storing one more cluster changes none before it. */
  lemma NextCluster(g: Geometry, img: seq<byte>, ch: seq<nat>, data: seq<byte>, m: nat)
    requires 0 < g.bps <= 512 && m < |ch| && ClustersFit(g, img, ch) && Distinct(ch)
    ensures var was, now := Stored(g, img, ch, data, m), Stored(g, img, ch, data, m + 1);
            && (forall p :: 0 <= p < |img| && InClusters(g, ch[..m], p) ==> now[p] == was[p])
            && now[g.At(ch[m])..g.At(ch[m]) + g.Per()] == Block(data, m, g.Per())
  {
    hide Geometry.At, Geometry.Per, Geometry.DataStart, Block;
    var was, now := Stored(g, img, ch, data, m), Stored(g, img, ch, data, m + 1);
    forall p | 0 <= p < |img| && InClusters(g, ch[..m], p)
      ensures now[p] == was[p]
    {
      NotInNext(g, ch, m, p);
    }
    assert now[g.At(ch[m])..g.At(ch[m]) + g.Per()] == Block(data, m, g.Per());
  }

  lemma NotInNext(g: Geometry, ch: seq<nat>, m: nat, p: nat)
    requires 0 < g.bps <= 512 && m < |ch| && Distinct(ch) && forall i :: 0 <= i < |ch| ==> ch[i] >= 2
    ensures InClusters(g, ch[..m], p) ==> !(g.At(ch[m]) <= p < g.At(ch[m]) + g.Per())
  {
    hide Geometry.At, Geometry.Per, Geometry.DataStart;
    if i :| 0 <= i < m && g.At(ch[..m][i]) <= p < g.At(ch[..m][i]) + g.Per() {
      assert ch[..m][i] == ch[i] != ch[m];
      if ch[i] < ch[m] {
        ClustersApart(g, ch[i], ch[m]);
      } else {
        ClustersApart(g, ch[m], ch[i]);
      }
    }
  }

  lemma {:induction false} FlushedElsewhere(g: Geometry, img: seq<byte>, fat: seq<byte>, n: nat, p: nat)
    requires g.bps > 0 && n <= g.nfat && |fat| == g.spf * 512 && g.DataStart() * 512 <= |img| && p < |img|
    requires p < g.FatStart() * 512 || g.RootStart() * 512 <= p
    ensures Flushed(g, img, fat, n)[p] == img[p]
    decreases n
  {
    hide Flushed, Geometry.DataStart, Geometry.RootStart;
    FlushStep(g, img, fat, n);
    if n > 0 {
      CopyFits(g, n - 1);
      MulMono(0, n - 1, g.spf);
      FlushedElsewhere(g, img, fat, n - 1, p);
    }
  }

  lemma {:induction false} CopiesFlushed(g: Geometry, img: seq<byte>, fat: seq<byte>, n: nat, i: nat)
    requires g.bps > 0 && i < n <= g.nfat && |fat| == g.spf * 512 && g.DataStart() * 512 <= |img|
    ensures g.CopyAt(i) + |fat| <= g.RootStart() * 512 <= |img|
    ensures Flushed(g, img, fat, n)[g.CopyAt(i)..g.CopyAt(i) + |fat|] == fat
    decreases n
  {
    hide Flushed, Geometry.DataStart, Geometry.RootStart;
    FlushStep(g, img, fat, n);
    CopyFits(g, i);
    if i < n - 1 {
      CopiesFlushed(g, img, fat, n - 1, i);
      BlockBound(i, n - 1, g.spf);
      var was, now := Flushed(g, img, fat, n - 1), Flushed(g, img, fat, n);
      var at := g.CopyAt(i);
      assert now[at..at + |fat|] == was[at..at + |fat|];
    }
  }

  // ---- write_file ------------------------------------------------------------------------------

  /** A directory entry: in the root directory, or in a cluster that is in use and not the file's. */
  ghost predicate EntryPlaced(g: Geometry, img: seq<byte>, fat: seq<byte>, have: seq<nat>, entry: nat) {
    && g.bps > 0 && g.RootStart() * 512 <= entry && entry + 32 <= |img|
    && (entry + 32 <= g.DataStart() * 512
        || exists c :: 2 <= c && c * 2 + 2 <= |fat| && Next(fat, c) != FREE && c !in have
                       && g.At(c) <= entry && entry + 32 <= g.At(c) + g.Per())
  }

  /** The entry stays out of the resized chain's clusters. */
  lemma EntryOutside(g: Geometry, img: seq<byte>, fat: seq<byte>, have: seq<nat>, need: nat, entry: nat, p: nat)
    requires Fits(g, img, fat) && Sound(g, fat, have) && need > 0 && EntryPlaced(g, img, fat, have, entry)
    requires Resized(g, fat, have, need).Some? && entry <= p < entry + 32
    ensures ClustersFit(g, img, Resized(g, fat, have, need).value.chain)
    ensures !InClusters(g, Resized(g, fat, have, need).value.chain, p)
  {
    hide Geometry.At, Geometry.Per, Geometry.DataStart, Geometry.RootStart, Geometry.Limit, FreeList, Grown, Shrunk, Next, IsChain;
    var ch := Resized(g, fat, have, need).value.chain;
    ResizedFits(g, img, fat, have, need);
    forall i | 0 <= i < |ch|
      ensures !(g.At(ch[i]) <= p < g.At(ch[i]) + g.Per())
    {
      ClusterPlace(g, ch[i]);
      if entry + 32 > g.DataStart() * 512 {
        var c :| 2 <= c && c * 2 + 2 <= |fat| && Next(fat, c) != FREE && c !in have
                 && g.At(c) <= entry && entry + 32 <= g.At(c) + g.Per();
        NotInResized(g, fat, have, need, c);
        if ch[i] < c {
          ClustersApart(g, ch[i], c);
        } else {
          ClustersApart(g, c, ch[i]);
        }
      }
    }
  }

  lemma NotInResized(g: Geometry, fat: seq<byte>, have: seq<nat>, need: nat, c: nat)
    requires Sound(g, fat, have) && need > 0 && c * 2 + 2 <= |fat|
    ensures Resized(g, fat, have, need).Some? && Next(fat, c) != FREE && c !in have ==>
              c !in Resized(g, fat, have, need).value.chain
  {
    hide Geometry.Limit, Next, Grown, Shrunk, IsChain;
  }

  /** Outside the FAT, the file's clusters and the size field of its directory entry no byte of the
      image changes. */
  lemma WriteChangesOnly(g: Geometry, img: seq<byte>, fat: seq<byte>, have: seq<nat>, data: seq<byte>, entry: nat, p: nat)
    requires Fits(g, img, fat) && Sound(g, fat, have) && g.Per() > 0 && |data| < WORD && p < |img|
    requires entry + 32 <= |img| && Rewritten(g, img, fat, have, data, entry).Some?
    requires p < g.FatStart() * 512 || g.RootStart() * 512 <= p
    ensures var v := Rewritten(g, img, fat, have, data, entry).value;
            && |v.img| == |img| && ClustersFit(g, img, v.chain)
            && (!InClusters(g, v.chain, p) ==> v.img[p] == Splice(img, entry + 28, Bytes32(|data|))[p])
  {
    hide Flushed, Stored, Resized, InClusters, Geometry.At, Geometry.DataStart, Geometry.RootStart, Need, IsChain, AllIn, Block, EntryPlaced;
    var need := Need(g, |data|);
    var r := Resized(g, fat, have, need);
    ResizedFits(g, img, fat, have, need);
    var flushed := Flushed(g, img, r.value.fat, g.nfat);
    FlushedElsewhere(g, img, r.value.fat, g.nfat, p);
    if !InClusters(g, r.value.chain, p) {
      StoredElsewhere(g, flushed, r.value.chain, data, |r.value.chain|, p);
    }
  }

  /** The number of clusters is the least that holds the data, but at least one. */
  lemma NeedIsLeast(g: Geometry, size: nat)
    requires g.Per() > 0
    ensures var n := Need(g, size); size <= n * g.Per() && (n > 1 ==> (n - 1) * g.Per() < size)
  {
    hide Geometry.Per;
    var per := g.Per();
    var q := (size + per - 1) / per;
    DivMod(size + per - 1, per);
    if q == 0 {
      MulMono(q, 1, per);
    } else {
      MulAdd(q - 1, 1, per);
    }
  }

  lemma RewrittenIs(g: Geometry, img: seq<byte>, fat: seq<byte>, have: seq<nat>, data: seq<byte>, entry: nat)
    requires Fits(g, img, fat) && Placed(g, fat, have) && g.Per() > 0 && |data| < WORD && entry + 32 <= |img|
    ensures var r, v := Resized(g, fat, have, Need(g, |data|)), Rewritten(g, img, fat, have, data, entry);
            && (v.Some? <==> r.Some?)
            && (r.Some? ==>
                  && |r.value.fat| == |fat| && ClustersFit(g, img, r.value.chain)
                  && v.value.fat == r.value.fat && v.value.chain == r.value.chain
                  && var flushed := Flushed(g, img, r.value.fat, g.nfat);
                  v.value.img == Splice(Stored(g, flushed, r.value.chain, data, |r.value.chain|), entry + 28, Bytes32(|data|)))
  {
    hide Flushed, Stored, Resized, Need, Geometry.At, Geometry.DataStart, Geometry.Limit, Geometry.Per;
    ResizedFits(g, img, fat, have, Need(g, |data|));
  }

  /** After write_file the file's chain is whole, starts where it did, has max(1, ceil(size / cluster))
      clusters, and holds exactly the data followed by zeros; its entry holds the size; every FAT copy
      is the new FAT. */
  lemma FileReadsBack(g: Geometry, img: seq<byte>, fat: seq<byte>, have: seq<nat>, data: seq<byte>, entry: nat)
    requires Fits(g, img, fat) && Sound(g, fat, have) && g.Per() > 0 && |data| < WORD
    requires EntryPlaced(g, img, fat, have, entry) && Rewritten(g, img, fat, have, data, entry).Some?
    ensures var v := Rewritten(g, img, fat, have, data, entry).value;
            && |v.img| == |img| && |v.fat| == |fat|
            && IsChain(v.fat, v.chain) && v.chain[0] == have[0] && |v.chain| == Need(g, |data|)
            && |data| <= |v.chain| * g.Per() && ClustersFit(g, v.img, v.chain)
            && ReadBack(g, v.img, v.chain) == Padded(data, |v.chain| * g.Per())
            && Le32(v.img, entry + 28) == |data|
  {
    hide Flushed, Stored, Resized, InClusters, Need, IsChain, AllIn, Block, Padded, Rewritten, Placed, Next;
    hide Geometry.At, Geometry.DataStart, Geometry.RootStart, Geometry.Per, Geometry.Limit;
    var need := Need(g, |data|);
    RewrittenIs(g, img, fat, have, data, entry);
    ResizedIsChain(g, fat, have, need);
    NeedIsLeast(g, |data|);
    var v := Rewritten(g, img, fat, have, data, entry).value;
    var flushed := Flushed(g, img, v.fat, g.nfat);
    var stored := Stored(g, flushed, v.chain, data, need);
    ChainIsDistinct(v.fat, v.chain);
    StoredReadsBack(g, flushed, v.chain, data, need);
    assert v.chain[..need] == v.chain;
    var size := need * g.Per();
    assert Padded(data, size)[..size] == Padded(data, size);
    forall p | 0 <= p < |img| && InClusters(g, v.chain, p)
      ensures v.img[p] == stored[p]
    {
      if entry <= p < entry + 32 {
        EntryOutside(g, img, fat, have, need, entry, p);
      }
    }
    SameBytesReadBack(g, stored, v.img, v.chain);
    SplicedWord(stored, entry + 28, |data|);
  }

  lemma SplicedWord(s: seq<byte>, at: nat, v: u32)
    requires at + 4 <= |s|
    ensures Le32(Splice(s, at, Bytes32(v)), at) == v
  {
    var b, r := Bytes32(v), Splice(s, at, Bytes32(v));
    assert forall i :: 0 <= i < 4 ==> r[at + i] == b[i];
  }

  /** After write_file every FAT copy on the disk is the new FAT. */
  lemma CopiesAgree(g: Geometry, img: seq<byte>, fat: seq<byte>, have: seq<nat>, data: seq<byte>, entry: nat, i: nat)
    requires Fits(g, img, fat) && Sound(g, fat, have) && g.Per() > 0 && |data| < WORD && i < g.nfat
    requires EntryPlaced(g, img, fat, have, entry) && Rewritten(g, img, fat, have, data, entry).Some?
    ensures var v := Rewritten(g, img, fat, have, data, entry).value;
            && g.CopyAt(i) == (g.start + g.res + i * g.spf) * 512 && g.CopyAt(i) + |fat| <= |v.img|
            && v.img[g.CopyAt(i)..g.CopyAt(i) + |fat|] == v.fat
  {
    hide Flushed, Stored, Resized, Need, IsChain, AllIn, Block, Rewritten, Placed, Geometry.CopyAt;
    hide Geometry.At, Geometry.DataStart, Geometry.RootStart, Geometry.Per, Geometry.Limit;
    CopyPlace(g, i);
    RewrittenIs(g, img, fat, have, data, entry);
    var v := Rewritten(g, img, fat, have, data, entry).value;
    var flushed := Flushed(g, img, v.fat, g.nfat);
    CopiesFlushed(g, img, v.fat, g.nfat, i);
    var at := g.CopyAt(i);
    forall p | at <= p < at + |fat|
      ensures v.img[p] == flushed[p]
    {
      forall k | 0 <= k < |v.chain|
        ensures !(g.At(v.chain[k]) <= p < g.At(v.chain[k]) + g.Per())
      {
        ClusterPlace(g, v.chain[k]);
        RootBeforeData(g);
      }
      StoredElsewhere(g, flushed, v.chain, data, |v.chain|, p);
    }
    assert v.img[at..at + |fat|] == flushed[at..at + |fat|];
  }

  lemma CopyPlace(g: Geometry, i: nat)
    ensures g.CopyAt(i) == (g.start + g.res + i * g.spf) * 512
  {
  }

  lemma RootBeforeData(g: Geometry)
    requires g.bps > 0
    ensures g.RootStart() <= g.DataStart()
  {
    Ceiling(g.roote * 32, g.bps);
  }

  /** Every other chain survives write_file, apart from the file's, and reads back as before; only a
      directory that holds the file's entry shows the new size. */
  lemma OthersReadBack(g: Geometry, img: seq<byte>, fat: seq<byte>, have: seq<nat>, data: seq<byte>, entry: nat, other: seq<nat>)
    requires Fits(g, img, fat) && Sound(g, fat, have) && g.Per() > 0 && |data| < WORD && entry + 32 <= |img|
    requires Rewritten(g, img, fat, have, data, entry).Some?
    requires IsChain(fat, other) && Apart(have, other) && ClustersFit(g, img, other)
    ensures var v := Rewritten(g, img, fat, have, data, entry).value;
            && IsChain(v.fat, other) && Apart(v.chain, other) && ClustersFit(g, v.img, other)
            && ReadBack(g, v.img, other) == ReadBack(g, Splice(img, entry + 28, Bytes32(|data|)), other)
  {
    hide Flushed, Stored, Resized, Need, IsChain, AllIn, Block, Rewritten, Placed, InClusters, Splice, Next;
    hide Geometry.At, Geometry.DataStart, Geometry.RootStart, Geometry.Per, Geometry.Limit;
    RewrittenIs(g, img, fat, have, data, entry);
    ResizeKeepsChains(g, fat, have, Need(g, |data|), other);
    var v := Rewritten(g, img, fat, have, data, entry).value;
    var want := Splice(img, entry + 28, Bytes32(|data|));
    RootBeforeData(g);
    forall p | 0 <= p < |img| && InClusters(g, other, p)
      ensures v.img[p] == want[p]
    {
      NotInOther(g, v.chain, other, p);
      WriteChangesOnly(g, img, fat, have, data, entry, p);
    }
    SameBytesReadBack(g, want, v.img, other);
  }

  lemma NotInOther(g: Geometry, ch: seq<nat>, other: seq<nat>, p: nat)
    requires 0 < g.bps <= 512 && Apart(ch, other)
    requires (forall i :: 0 <= i < |ch| ==> ch[i] >= 2) && (forall i :: 0 <= i < |other| ==> other[i] >= 2)
    requires InClusters(g, other, p)
    ensures !InClusters(g, ch, p) && p >= g.DataStart() * 512
  {
    hide Geometry.At, Geometry.Per, Geometry.DataStart;
    var j :| 0 <= j < |other| && g.At(other[j]) <= p < g.At(other[j]) + g.Per();
    ClusterPlace(g, other[j]);
    forall i | 0 <= i < |ch|
      ensures !(g.At(ch[i]) <= p < g.At(ch[i]) + g.Per())
    {
      if ch[i] < other[j] {
        ClustersApart(g, ch[i], other[j]);
      } else {
        ClustersApart(g, other[j], ch[i]);
      }
    }
  }

  // ---- a volume there is -----------------------------------------------------------------------

  /** The smallest volume with one file on it: a FAT of one sector, a root directory of one and three
      clusters, the first of them the file's. */
  ghost function OneFileFat(): (fat: seq<byte>)
    ensures |fat| == 512
  {
    SetNext(Zeros(512), 2, EOC)
  }

  const SMALLEST := Geometry(0, 512, 1, 1, 1, 16, 1, 6)

  /** The theorems above are about volumes that exist: every one of their demands is met there by any
      file of at most three clusters. */
  lemma SmallestVolumeIsSound(img: seq<byte>, data: seq<byte>)
    requires |img| == 3072 && |data| <= 1536
    ensures Fits(SMALLEST, img, OneFileFat()) && Sound(SMALLEST, OneFileFat(), [2]) && SMALLEST.Per() > 0
    ensures EntryPlaced(SMALLEST, img, OneFileFat(), [2], 1024)
    ensures Rewritten(SMALLEST, img, OneFileFat(), [2], data, 1024).Some?
  {
    hide Next, Rewritten, Resized;
    var fat := OneFileFat();
    forall m: nat | m * 2 + 2 <= |fat|
      ensures Next(fat, m) == if m == 2 then EOC else FREE
    {
      SetNextChangesOne(Zeros(512), 2, EOC, m);
      ZerosAreFree(m);
    }
    assert SMALLEST.DataStart() == 3 && SMALLEST.Limit(512) == 5;
    assert Sound(SMALLEST, fat, [2]);
    var all := FreeSet(fat, 5);
    assert all == {3, 4};
    RewrittenIs(SMALLEST, img, fat, [2], data, 1024);
    ResizeCountsFree(SMALLEST, fat, [2], Need(SMALLEST, |data|));
  }

  lemma ZerosAreFree(m: nat)
    ensures m * 2 + 2 <= 512 ==> Next(Zeros(512), m) == FREE
  {
  }
}
