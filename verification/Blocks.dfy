/** Byte strings made of equal blocks laid end to end, as files are of clusters. */
module Blocks {
  import opened Words
  import opened Arithmetic

  /** `n` bytes at `at`; reading outside the bytes gives zeros. */
  function Extent(bytes: seq<byte>, at: int, n: nat): (s: seq<byte>)
    ensures |s| == n
  {
    if 0 <= at && at + n <= |bytes| then bytes[at..at + n] else Zeros(n)
  }

  ghost function Flatten(parts: seq<seq<byte>>): seq<byte> {
    if parts == [] then [] else parts[0] + Flatten(parts[1..])
  }

  ghost predicate Uniform(parts: seq<seq<byte>>, c: nat) {
    forall i :: 0 <= i < |parts| ==> |parts[i]| == c
  }

  lemma {:induction false} FlattenConcat(a: seq<seq<byte>>, b: seq<seq<byte>>)
    ensures Flatten(a + b) == Flatten(a) + Flatten(b)
    decreases |a|
  {
    if a == [] {
      assert a + b == b;
    } else {
      assert (a + b)[1..] == a[1..] + b;
      FlattenConcat(a[1..], b);
    }
  }

  lemma {:induction false} FlattenLength(parts: seq<seq<byte>>, c: nat)
    requires Uniform(parts, c)
    ensures |Flatten(parts)| == |parts| * c
    decreases |parts|
  {
    if parts != [] {
      FlattenLength(parts[1..], c);
      MulAdd(|parts| - 1, 1, c);
    }
  }

  /** Where blocks [i, i + run) are in the whole. */
  lemma FlattenMiddle(parts: seq<seq<byte>>, c: nat, i: nat, run: nat)
    requires Uniform(parts, c) && i + run <= |parts|
    ensures var a, b := Flatten(parts[..i]), Flatten(parts[i..i + run]);
            && |a| == i * c && |b| == run * c
            && Flatten(parts) == a + (b + Flatten(parts[i + run..]))
  {
    var a, b, d := parts[..i], parts[i..i + run], parts[i + run..];
    assert parts == a + (b + d);
    FlattenConcat(a, b + d);
    FlattenConcat(b, d);
    FlattenLength(a, c);
    FlattenLength(b, c);
  }

  /** Every block starts where the one before it ends. */
  ghost predicate Adjoining(bytes: seq<byte>, start: int, parts: seq<seq<byte>>, c: nat)
    decreases |parts|
  {
    parts != [] ==> parts[0] == Extent(bytes, start, c) && Adjoining(bytes, start + c, parts[1..], c)
  }

  /** Blocks that follow one another in memory are one extent of it. */
  lemma {:induction false} AdjoiningIsExtent(bytes: seq<byte>, start: nat, parts: seq<seq<byte>>, c: nat)
    requires Adjoining(bytes, start, parts, c)
    requires start + |Flatten(parts)| <= |bytes|
    ensures Flatten(parts) == bytes[start..start + |Flatten(parts)|]
    decreases |parts|
  {
    if parts != [] {
      var rest := Flatten(parts[1..]);
      AdjoiningIsExtent(bytes, start + c, parts[1..], c);
      assert Flatten(parts) == bytes[start..start + c] + bytes[start + c..start + c + |rest|];
    }
  }

  lemma SliceOfMiddle(a: seq<byte>, b: seq<byte>, d: seq<byte>, off: nat, n: nat)
    ensures off + n <= |b| ==> (a + (b + d))[|a| + off..|a| + off + n] == b[off..off + n]
  {
  }

  lemma SliceOfSlice(s: seq<byte>, at: nat, m: nat, off: nat, n: nat)
    requires at + m <= |s| && off + n <= m
    ensures s[at..at + m][off..off + n] == s[at + off..at + off + n]
  {
    var l, r := s[at..at + m][off..off + n], s[at + off..at + off + n];
    forall i | 0 <= i < n
      ensures l[i] == r[i]
    {
      assert l[i] == s[at..at + m][off + i];
    }
  }
}
