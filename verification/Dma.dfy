/** IoMapTransfer: a memory descriptor list's page array as physically contiguous runs. */
module Dma {
  import opened Words

  const PAGE := 4096

  type Frame = p: int | 0 <= p < 0x10_0000

  /** `mappedSystemVa` is 0 when the buffer has no system address. */
  datatype Mdl = Mdl(startVa: u32, mappedSystemVa: u32, byteOffset: u32, byteCount: u32, pages: seq<Frame>)
  {
    function Limit(): nat { byteOffset + byteCount }

    /** What the memory manager guarantees of a list it built. */
    ghost predicate Valid() {
      && startVa % PAGE == 0 && byteOffset < PAGE
      && Limit() + PAGE - 1 < WORD
      && |pages| == (Limit() + PAGE - 1) / PAGE
    }
  }

  /** Where the byte `o` bytes past the page-aligned start of the buffer is in memory. */
  function Phys(pages: seq<Frame>, o: nat): (a: u32)
    requires o < |pages| * PAGE
    ensures a % PAGE == o % PAGE
  {
    pages[o / PAGE] * PAGE + o % PAGE
  }

  /** Byte `k` of a transfer at `off` is where one contiguous run would put it. */
  predicate InRun(pages: seq<Frame>, off: nat, k: nat)
    requires off + k < |pages| * PAGE
  {
    Phys(pages, off + k) == Phys(pages, off) + k
  }

  ghost predicate Contiguous(pages: seq<Frame>, off: nat, n: nat)
    requires off + n <= |pages| * PAGE
  {
    forall k :: 0 <= k < n ==> InRun(pages, off, k)
  }

  /** The length of the longest physically contiguous run at `off`, at most `cap`: byte by byte,
      with no notion of page. */
  ghost function LongestRun(pages: seq<Frame>, off: nat, cap: nat): (r: nat)
    requires off + cap <= |pages| * PAGE
    ensures r <= cap && (cap > 0 ==> r > 0)
    ensures Contiguous(pages, off, r)
    ensures r < cap ==> !InRun(pages, off, r)
  {
    if cap == 0 then 0
    else
      var r := LongestRun(pages, off, cap - 1);
      if r == cap - 1 && InRun(pages, off, r) then cap else r
  }

  lemma LongestRunIsUnique(pages: seq<Frame>, off: nat, cap: nat, r: nat)
    requires off + cap <= |pages| * PAGE && r <= cap
    requires Contiguous(pages, off, r)
    requires r < cap ==> !InRun(pages, off, r)
    ensures r == LongestRun(pages, off, cap)
  {
    var longest := LongestRun(pages, off, cap);
    assert r < cap ==> !InRun(pages, off, r);
    assert longest < cap ==> !InRun(pages, off, longest);
  }

  /** The base IoMapTransfer measures CurrentVa from: StartVa, or MappedSystemVa when StartVa puts
      it outside the buffer. */
  function TransferOffset(mdl: Mdl, currentVa: u32): Option<u32> {
    var offset := Sub32(currentVa, mdl.startVa);
    if offset <= mdl.Limit() then Some(offset)
    else if mdl.mappedSystemVa != 0 && Sub32(currentVa, mdl.mappedSystemVa) <= mdl.Limit()
    then Some(Sub32(currentVa, mdl.mappedSystemVa))
    else None
  }

  /** The code accepts offset == limit; the page it then reads exists unless the buffer ends on a
      page boundary. */
  lemma PageIndexInArray(mdl: Mdl, offset: u32)
    requires mdl.Valid() && offset <= mdl.Limit()
    ensures offset / PAGE < |mdl.pages| <==> offset < mdl.Limit() || mdl.Limit() % PAGE != 0
  {
  }

  /** A buffer that is one page: the offset one past its end is accepted, and is in no page of the
      array. */
  lemma IndexPastPages(mdl: Mdl)
    requires mdl == Mdl(0x1000, 0, 0, 0x1000, [7])
    ensures mdl.Valid() && TransferOffset(mdl, 0x2000) == Some(mdl.Limit())
    ensures mdl.Limit() / PAGE == |mdl.pages|
  {
  }

  lemma SamePage(o: nat, k: nat)
    ensures o % PAGE + k < PAGE ==> (o + k) / PAGE == o / PAGE && (o + k) % PAGE == o % PAGE + k
  {
  }

  lemma PageIsContiguous(pages: seq<Frame>, off: nat, run: nat)
    requires (run + off % PAGE) % PAGE == 0 && off + run + PAGE <= |pages| * PAGE
    requires Contiguous(pages, off, run)
    requires pages[off / PAGE + (run + off % PAGE) / PAGE] == pages[off / PAGE] + (run + off % PAGE) / PAGE
    ensures Contiguous(pages, off, run + PAGE)
  {
    forall k | run <= k < run + PAGE
      ensures InRun(pages, off, k)
    {
      SamePage(off + run, k - run);
    }
  }

  lemma FirstPageIsContiguous(pages: seq<Frame>, off: nat)
    requires off / PAGE < |pages|
    ensures Contiguous(pages, off, PAGE - off % PAGE)
  {
    forall k | 0 <= k < PAGE - off % PAGE
      ensures InRun(pages, off, k)
    {
      SamePage(off, k);
    }
  }

  lemma PageOf(off: nat, run: nat)
    ensures (run + off % PAGE) % PAGE == 0 ==> (off + run) / PAGE == off / PAGE + (run + off % PAGE) / PAGE
    ensures (run + off % PAGE) % PAGE == 0 ==> (off + run) % PAGE == 0
  {
  }

  /** The page-array guard in the loop adds nothing: the total guard has already stopped a run
      that would leave the buffer. */
  lemma PageGuardIsImplied(limit: nat, off: nat, run: nat)
    requires off < limit && (run + off % PAGE) % PAGE == 0 && run < limit - off
    ensures off / PAGE + (run + off % PAGE) / PAGE < (limit + PAGE - 1) / PAGE
  {
  }

  /** The byte `o` bytes past the buffer's first page is at `address`, and so is the longest run from
      there on, of what was asked for and is left of the buffer. */
  ghost predicate IsRun(pages: seq<Frame>, limit: nat, o: nat, requested: nat, length: nat, address: nat) {
    && o <= limit <= |pages| * PAGE && o / 4096 < |pages|
    && address == pages[o / 4096] * 4096 + o % 4096
    && length == LongestRun(pages, o, Min(requested, limit - o))
  }

  /** The byte k of a buffer is byteOffset + k bytes past its first page, and inside it. */
  lemma BytesOfBuffer(mdl: Mdl, currentVa: u32, k: nat)
    requires mdl.Valid() && k < mdl.byteCount && currentVa == (mdl.startVa + mdl.byteOffset + k) % WORD
    ensures (currentVa - mdl.startVa) % WORD == mdl.byteOffset + k < mdl.byteOffset + mdl.byteCount
  {
  }

  /** From StartVa if that puts CurrentVa inside the buffer's pages, else from the system address, else
      not at all. */
  method IoMapTransfer(mdl: Mdl, currentVa: u32, requested: u32) returns (length: u32, result: u32)
    requires mdl.Valid()
    requires TransferOffset(mdl, currentVa).Some? ==>
               TransferOffset(mdl, currentVa).value < mdl.Limit() || mdl.Limit() % PAGE != 0
    ensures var limit, o, alt := mdl.byteOffset + mdl.byteCount, (currentVa - mdl.startVa) % WORD, (currentVa - mdl.mappedSystemVa) % WORD;
            if o <= limit then IsRun(mdl.pages, limit, o, requested, length, result)
            else if mdl.mappedSystemVa != 0 && alt <= limit then IsRun(mdl.pages, limit, alt, requested, length, result)
            else length == 0 && result == 0
    ensures TransferOffset(mdl, currentVa).Some? ==>
              var off := TransferOffset(mdl, currentVa).value;
              && result == Phys(mdl.pages, off)
              && length == LongestRun(mdl.pages, off, Min(requested, mdl.Limit() - off))
  {
    var limit: u32 := mdl.byteOffset + mdl.byteCount;
    var offset := Sub32(currentVa, mdl.startVa);
    if offset > limit && mdl.mappedSystemVa != 0 {
      var alt := Sub32(currentVa, mdl.mappedSystemVa);
      if alt <= limit {
        offset := alt;
      }
    }
    if offset > limit {
      return 0, 0;
    }
    length := RunFrom(mdl.pages, limit, offset, requested);
    result := mdl.pages[offset / PAGE] * PAGE + offset % PAGE;
  }

  /** The loop of IoMapTransfer. */
  method RunFrom(pages: seq<Frame>, limit: u32, offset: u32, requested: u32) returns (run: u32)
    requires limit + PAGE - 1 < WORD && |pages| == (limit + PAGE - 1) / PAGE
    requires offset <= limit && offset / PAGE < |pages|
    ensures run == LongestRun(pages, offset, Min(requested, limit - offset))
  {
    var idx, inpage := offset / PAGE, offset % PAGE;
    var total, npages := limit - offset, (limit + PAGE - 1) / PAGE;
    run := PAGE - inpage;
    FirstPageIsContiguous(pages, offset);
    while true
      invariant (run + inpage) % PAGE == 0 && 0 < run <= total + PAGE
      invariant offset + run <= |pages| * PAGE
      invariant Contiguous(pages, offset, run)
      decreases total + PAGE - run
    {
      var next := (run + inpage) / PAGE;
      if run >= requested || run >= total {
        break;
      }
      PageGuardIsImplied(limit, offset, run);
      if idx + next >= npages {
        break;
      }
      PageOf(offset, run);
      if pages[idx + next] != pages[idx] + next {
        assert !InRun(pages, offset, run);
        break;
      }
      PageIsContiguous(pages, offset, run);
      run := run + PAGE;
    }
    assert run < Min(requested, total) ==> !InRun(pages, offset, run);
    if run > requested {
      run := requested;
    }
    if run > total {
      run := total;
    }
    LongestRunIsUnique(pages, offset, Min(requested, total), run);
  }

  // ---- a whole transfer ------------------------------------------------------------------------

  datatype Run = Run(address: u32, length: nat)

  /** The scatter list of a driver that asks for the rest of its transfer until nothing is left. */
  ghost function ScatterList(pages: seq<Frame>, off: nat, n: nat): (list: seq<Run>)
    requires off + n <= |pages| * PAGE
    decreases n
  {
    if n == 0 then []
    else
      var r := LongestRun(pages, off, n);
      [Run(Phys(pages, off), r)] + ScatterList(pages, off + r, n - r)
  }

  /** The address of every byte a list of runs touches, in order. */
  ghost function Bytes(list: seq<Run>): seq<int> {
    if list == [] then [] else seq(list[0].length, k => list[0].address + k) + Bytes(list[1..])
  }

  ghost function Translated(pages: seq<Frame>, off: nat, n: nat): seq<int>
    requires off + n <= |pages| * PAGE
  {
    seq(n, k requires 0 <= k < n => Phys(pages, off + k))
  }

  /** The scatter list touches exactly the transfer's bytes, each once and in order, and no two
      neighbouring runs could have been one. */
  lemma {:induction false} ScatterListIsTheTransfer(pages: seq<Frame>, off: nat, n: nat)
    requires off + n <= |pages| * PAGE
    ensures var list := ScatterList(pages, off, n);
            && Bytes(list) == Translated(pages, off, n)
            && (forall i :: 0 <= i < |list| ==> list[i].length > 0)
            && (forall i :: 0 <= i < |list| - 1 ==> list[i].address + list[i].length != list[i + 1].address)
    decreases n
  {
    if n > 0 {
      var r := LongestRun(pages, off, n);
      ScatterListIsTheTransfer(pages, off + r, n - r);
      var rest := ScatterList(pages, off + r, n - r);
      var list := ScatterList(pages, off, n);
      assert list == [Run(Phys(pages, off), r)] + rest && list[1..] == rest;
      RunIsTranslated(pages, off, r, n);
      assert r < n ==> rest[0].address == Phys(pages, off + r) && !InRun(pages, off, r);
    }
  }

  lemma RunIsTranslated(pages: seq<Frame>, off: nat, r: nat, n: nat)
    requires off + n <= |pages| * PAGE && r <= n && Contiguous(pages, off, r)
    ensures r > 0 ==> Translated(pages, off, n) == seq(r, k => Phys(pages, off) + k) + Translated(pages, off + r, n - r)
  {
    if r > 0 {
      var first := seq(r, k => Phys(pages, off) + k);
      var rest := Translated(pages, off + r, n - r);
      forall k | 0 <= k < n
        ensures Translated(pages, off, n)[k] == (first + rest)[k]
      {
        if k < r {
          assert InRun(pages, off, k);
        } else {
          assert rest[k - r] == Phys(pages, off + r + (k - r));
        }
      }
    }
  }

  /** A driver that works through the buffer in the system address space is sent to the right
      bytes only if the buffer starts on a page boundary: MappedSystemVa is the address of its
      first byte, while the page array starts at its first page. */
  lemma SystemAddressIsExactIff(mdl: Mdl, currentVa: u32)
    requires mdl.Valid() && mdl.mappedSystemVa != 0
    requires Sub32(currentVa, mdl.startVa) > mdl.Limit()
    requires Sub32(currentVa, mdl.mappedSystemVa) < mdl.byteCount
    ensures TransferOffset(mdl, currentVa).Some?
    ensures var k := Sub32(currentVa, mdl.mappedSystemVa);
            Phys(mdl.pages, TransferOffset(mdl, currentVa).value) == Phys(mdl.pages, mdl.byteOffset + k)
            <==> mdl.byteOffset == 0
  {
    var k := Sub32(currentVa, mdl.mappedSystemVa);
    assert Phys(mdl.pages, k) % PAGE == k % PAGE;
    assert Phys(mdl.pages, mdl.byteOffset + k) % PAGE == (mdl.byteOffset + k) % PAGE;
  }

  /** A buffer 0x200 bytes into its page: the system address of its first byte is translated to the
      start of the page. */
  lemma SystemAddressMisses()
    ensures var mdl := Mdl(0x1000, 0x8000_0200, 0x200, 0x800, [7]);
            && mdl.Valid() && TransferOffset(mdl, mdl.mappedSystemVa) == Some(0)
            && Phys(mdl.pages, 0) == 0x7000 && Phys(mdl.pages, mdl.byteOffset) == 0x7200
  {
  }
}
