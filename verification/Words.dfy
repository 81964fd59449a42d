/** Machine words: the byte and the 32-bit ULONG of the sources, and the little-endian
    fields that boot sectors, partition tables and directory entries are made of. */
module Words {
  const WORD := 0x1_0000_0000

  type byte = b: int | 0 <= b < 0x100
  type u16 = w: int | 0 <= w < 0x1_0000
  type u32 = w: int | 0 <= w < WORD

  datatype Option<+T> = None | Some(value: T)

  /** ULONG addition, which wraps. */
  function Add32(a: u32, b: u32): u32 { (a + b) % WORD }

  /** ULONG subtraction, which wraps. */
  function Sub32(a: u32, b: u32): u32 { (a - b) % WORD }

  function Le16(s: seq<byte>, at: nat): u16
    requires at + 2 <= |s|
  {
    s[at] as int + 0x100 * (s[at + 1] as int)
  }

  function Le32(s: seq<byte>, at: nat): u32
    requires at + 4 <= |s|
  {
    s[at] as int + 0x100 * (s[at + 1] as int) + 0x1_0000 * (s[at + 2] as int) + 0x100_0000 * (s[at + 3] as int)
  }

  function Bytes16(v: u16): (s: seq<byte>)
    ensures |s| == 2 && Le16(s, 0) == v
  {
    [v % 0x100, v / 0x100]
  }

  function Bytes32(v: u32): (s: seq<byte>)
    ensures |s| == 4 && Le32(s, 0) == v
  {
    var v1, v2, v3 := v / 0x100, v / 0x100 / 0x100, v / 0x100 / 0x100 / 0x100;
    [v % 0x100, v1 % 0x100, v2 % 0x100, v3]
  }

  /** `s[at : at + |d|] = d` on a byte array: everything else stays. */
  function Splice<T>(s: seq<T>, at: nat, d: seq<T>): (r: seq<T>)
    requires at + |d| <= |s|
    ensures |r| == |s|
    ensures forall i :: 0 <= i < |s| ==> r[i] == if at <= i < at + |d| then d[i - at] else s[i]
  {
    s[..at] + d + s[at + |d|..]
  }

  function Zeros(n: nat): (s: seq<byte>)
    ensures |s| == n && forall i :: 0 <= i < n ==> s[i] == 0
  {
    seq(n, _ => 0)
  }

  function Min(a: int, b: int): int { if a < b then a else b }
}
