/** The real-time clock: the HAL's 64-bit division in misc.c, the conversions between NT time and
    Cuda's seconds, and the byte order of Cuda's packets in cuda.c. */
module Clock {
  import opened Words
  import opened Arithmetic

  type u64 = w: int | 0 <= w < 0x1_0000_0000_0000_0000

  const MAC_EPOCH_TO_1601: u64 := 9561628800
  const NT_UNITS_PER_SECOND: u32 := 10000000

  /** The seconds of the 303 years from 1601 to 1904, of which 72 were leap years; 100 ns to a unit. */
  lemma EpochIs()
    ensures var leap := (1903 / 4 - 1600 / 4) - (1903 / 100 - 1600 / 100) + (1903 / 400 - 1600 / 400);
            leap == 72 && MAC_EPOCH_TO_1601 == (303 * 365 + leap) * 24 * 60 * 60
    ensures NT_UNITS_PER_SECOND * 100 == 1000 * 1000 * 1000
  {
  }

  // ---- long division ---------------------------------------------------------------------------

  function Pow2(n: nat): (p: nat)
    ensures p > 0
  {
    if n == 0 then 1 else 2 * Pow2(n - 1)
  }

  /** The bits of `n` from bit `i` up. */
  function Top(n: u64, i: nat): nat {
    DivMod(n, Pow2(i));
    n / Pow2(i)
  }

  /** HalpDivU64: one quotient bit for each bit of `n`, from the top.  The bits set in `q` so far are
      all above bit `i`, so that setting bit `i` adds it. */
  method HalpDivU64(n: u64, d: u32) returns (q: u64)
    ensures q == if d == 0 then 0 else n / d
  {
    hide Top, Pow2;
    q := 0;
    if d == 0 {
      return;
    }
    var rem: u64 := 0;
    var whole: nat := 0;
    var i := 64;
    TopIsAll(n);
    while i > 0
      invariant 0 <= i <= 64
      invariant whole == Top(n, i) / d && rem == Top(n, i) % d
      invariant q == whole * Pow2(i)
    {
      i := i - 1;
      TopStep(n, i);
      var bit := Top(n, i) % 2;
      DivideStep(Top(n, i + 1), bit, d);
      QuotientFits(n, i, d);
      QuotientFits(n, i + 1, d);
      assert whole * Pow2(i + 1) == 2 * whole * Pow2(i) by { PowerStep(whole, i); }
      MulAdd(2 * whole, 1, Pow2(i));
      rem := rem * 2 + bit;
      whole := 2 * whole;
      if rem >= d {
        rem := rem - d;
        q := q + Pow2(i);
        whole := whole + 1;
      }
    }
    TopIsNone(n);
  }

  lemma PowerStep(a: nat, i: nat)
    ensures a * Pow2(i + 1) == 2 * a * Pow2(i)
  {
  }

  lemma TopIsNone(n: u64)
    ensures Top(n, 0) == n && Pow2(0) == 1
  {
  }

  lemma TopIsAll(n: u64)
    ensures Top(n, 64) == 0
  {
    assert Pow2(8) == 0x100;
    Powers(8, 8);
    Powers(16, 16);
    Powers(32, 32);
    DivModUnique(n, Pow2(64), 0, n);
  }

  lemma {:induction false} Powers(a: nat, b: nat)
    ensures Pow2(a + b) == Pow2(a) * Pow2(b)
    decreases b
  {
    if b > 0 {
      Powers(a, b - 1);
      Twice(Pow2(a), Pow2(b - 1));
    }
  }

  lemma Twice(a: nat, b: nat)
    ensures 2 * (a * b) == a * (2 * b)
  {
  }

  /** One more bit at the bottom. */
  lemma TopStep(n: u64, i: nat)
    ensures Top(n, i) == 2 * Top(n, i + 1) + Top(n, i) % 2
  {
    var p := Pow2(i);
    DivMod(n, p);
    var t, r := n / p, n % p;
    var h, b := t / 2, t % 2;
    MulAdd(2 * h, b, p);
    assert h * (2 * p) == 2 * h * p;
    assert b * p + r < 2 * p by { MulMono(b, 1, p); }
    DivModUnique(n, 2 * p, h, b * p + r);
  }

  lemma DivideStep(t: nat, bit: nat, d: nat)
    requires d > 0 && bit < 2
    ensures var r, q := t % d * 2 + bit, t / d;
            && r < 2 * d
            && (2 * t + bit) / d == 2 * q + (if r >= d then 1 else 0)
            && (2 * t + bit) % d == (if r >= d then r - d else r)
  {
    DivMod(t, d);
    var r, q := t % d * 2 + bit, t / d;
    MulAdd(2 * q, 1, d);
    assert 2 * (q * d) == 2 * q * d;
    if r >= d {
      DivModUnique(2 * t + bit, d, 2 * q + 1, r - d);
    } else {
      DivModUnique(2 * t + bit, d, 2 * q, r);
    }
  }

  lemma QuotientFits(n: u64, i: nat, d: nat)
    requires d > 0
    ensures 0 <= Top(n, i) / d * Pow2(i) <= n
  {
    var p := Pow2(i);
    DivMod(n, p);
    DivMod(n / p, d);
    MulMono(1, d, n / p / d);
    MulMono(n / p / d, n / p, p);
    MulMono(0, n / p / d, p);
  }

  // ---- Cuda's packets --------------------------------------------------------------------------

  const CUDA_CMD_GET_TIME: byte := 0x03
  const CUDA_CMD_SET_TIME: byte := 0x09

  /** The most significant byte first. */
  function Be32(s: seq<byte>, at: nat): u32
    requires at + 4 <= |s|
  {
    0x100_0000 * (s[at] as int) + 0x1_0000 * (s[at + 1] as int) + 0x100 * (s[at + 2] as int) + s[at + 3] as int
  }

  function BigEndian(v: u32): (s: seq<byte>)
    ensures |s| == 4 && Be32(s, 0) == v
  {
    var v1, v2, v3 := v / 0x100, v / 0x100 / 0x100, v / 0x100 / 0x100 / 0x100;
    [v3, v2 % 0x100, v1 % 0x100, v % 0x100]
  }

  /** TIME_FIELDS: a moment the kernel's conversion made, or the one the HAL makes up. */
  datatype TimeFields = Moment(units: u64) | Plausible

  /** Cuda: keeps the four bytes of its clock as they were sent; may not answer at all. */
  class Cuda {
    var clock: seq<byte>
    var answers: bool

    ghost predicate Valid()
      reads this
    {
      |clock| == 4
    }

    constructor (seconds: u32)
      ensures Valid() && answers && Seconds() == seconds
    {
      clock, answers := BigEndian(seconds), true;
    }

    /** The seconds since 1904 the clock stands at. */
    ghost function Seconds(): u32
      requires Valid()
      reads this
    {
      Be32(clock, 0)
    }

    /** HalpCudaRequest for the two commands: the reply, empty if there is none. */
    method Request(command: seq<byte>) returns (reply: seq<byte>)
      requires Valid() && (command == [0x03] || (|command| == 5 && command[0] == 0x09))
      modifies this`clock
      ensures Valid()
      ensures !answers ==> reply == [] && clock == old(clock)
      ensures answers ==> |reply| >= 3 && reply[2] == command[0]
      ensures answers && |command| == 1 ==> reply[3..] == clock == old(clock)
      ensures answers && |command| == 5 ==> clock == command[1..]
    {
      if !answers {
        return [];
      }
      if |command| == 1 {
        reply := [1, 0, command[0]] + clock;
      } else {
        clock := command[1..];
        reply := [1, 0, command[0]];
      }
    }

    method GetTime() returns (seconds: Option<u32>)
      requires Valid()
      modifies this`clock
      ensures Valid() && clock == old(clock)
      ensures seconds == if answers then Some(Seconds()) else None
      ensures answers ==> seconds.value == 0x100_0000 * (clock[0] as int) + 0x1_0000 * (clock[1] as int)
                                           + 0x100 * (clock[2] as int) + clock[3] as int
    {
      var reply := Request([CUDA_CMD_GET_TIME]);
      if |reply| < 7 || reply[2] != CUDA_CMD_GET_TIME {
        return None;
      }
      assert forall i :: 0 <= i < 4 ==> reply[3 + i] == reply[3..][i];
      seconds := Some(Be32(reply, 3));
    }

    method SetTime(seconds: u32) returns (ok: bool)
      requires Valid()
      modifies this`clock
      ensures Valid() && ok == answers
      ensures ok ==> Seconds() == seconds
      ensures ok ==> clock == [seconds / 0x100_0000, seconds / 0x1_0000 % 0x100, seconds / 0x100 % 0x100, seconds % 0x100]
      ensures !ok ==> clock == old(clock)
    {
      var b := BigEndian(seconds);
      var out := [CUDA_CMD_SET_TIME] + b;
      assert out[1..] == b;
      var reply := Request(out);
      ok := |reply| >= 3 && reply[2] == CUDA_CMD_SET_TIME;
    }

    method HalQueryRealTimeClock() returns (fields: TimeFields)
      requires Valid()
      modifies this`clock
      ensures Valid() && clock == old(clock)
      ensures fields == if answers then Moment((Seconds() + MAC_EPOCH_TO_1601) * NT_UNITS_PER_SECOND) else Plausible
    {
      var seconds := GetTime();
      if seconds.Some? {
        return Moment((seconds.value + MAC_EPOCH_TO_1601) * NT_UNITS_PER_SECOND);
      }
      fields := Plausible;
    }

    /** `time`: what the kernel's conversion makes of the fields, or None if it refuses them. */
    method HalSetRealTimeClock(time: Option<u64>) returns (ok: bool)
      requires Valid()
      modifies this`clock
      ensures Valid()
      ensures ok == (time.Some? && InRange(time.value) && answers)
      ensures ok ==> Seconds() == time.value / NT_UNITS_PER_SECOND - MAC_EPOCH_TO_1601
      ensures !ok ==> clock == old(clock)
    {
      if time.None? {
        return false;
      }
      var seconds := HalpDivU64(time.value, NT_UNITS_PER_SECOND);
      if seconds < MAC_EPOCH_TO_1601 {
        return false;
      }
      seconds := seconds - MAC_EPOCH_TO_1601;
      if seconds > 0xFFFF_FFFF {
        return false;
      }
      ok := SetTime(seconds);
    }
  }

  /** From the start of 1904 to the end of Cuda's 32 bits of seconds, in 2040. */
  predicate InRange(time: u64) {
    MAC_EPOCH_TO_1601 * NT_UNITS_PER_SECOND <= time < (MAC_EPOCH_TO_1601 + WORD) * NT_UNITS_PER_SECOND
  }

  /** The moments whose second, counted from 1904, fits 32 bits. */
  lemma RangeIs(time: u64)
    ensures InRange(time) <==> 0 <= time / 10000000 - 9561628800 < 0x1_0000_0000
  {
  }

  /** A moment in Cuda's range is read back rounded down to the second; any other is refused and the
      clock goes on as it was. */
  method SetThenQuery(cuda: Cuda, time: u64) returns (ok: bool, fields: TimeFields)
    requires cuda.Valid() && cuda.answers
    modifies cuda`clock
    ensures cuda.Valid() && ok == InRange(time)
    ensures fields == Moment(if ok then time - time % NT_UNITS_PER_SECOND
                             else (old(cuda.Seconds()) + MAC_EPOCH_TO_1601) * NT_UNITS_PER_SECOND)
  {
    ok := cuda.HalSetRealTimeClock(Some(time));
    fields := cuda.HalQueryRealTimeClock();
  }
}
