/** Fixed-width integers, big-endian fields and the byte-wise exclusive or, as
    the packet formats use them. */
module Bytes {
  type byte = x: int | 0 <= x < 0x100
  type u16 = x: int | 0 <= x < 0x1_0000
  type u32 = x: int | 0 <= x < 0x1_0000_0000
  type u64 = x: int | 0 <= x < 0x1_0000_0000_0000_0000

  const TWO16 := 0x1_0000
  const TWO32 := 0x1_0000_0000
  const TWO48 := 0x1_0000_0000_0000

  datatype Option<+T> = None | Some(value: T) {
    function UnwrapOr(default: T): T {
      if Some? then value else default
    }
  }

  lemma SliceOfSlice(s: seq<byte>, from: nat, to: nat, i: nat, j: nat)
    requires from <= to <= |s| && i <= j <= to - from
    ensures s[from..to][i..j] == s[from + i..from + j]
  {
    var inner := s[from..to];
    forall k | 0 <= k < j - i ensures inner[i..j][k] == s[from + i..from + j][k] {
      assert inner[i..j][k] == inner[i + k];
    }
  }

  function Be16(s: seq<byte>): u16
    requires |s| == 2
  {
    var high: int, low: int := s[0], s[1];
    high * 0x100 + low
  }

  function Be32(s: seq<byte>): u32
    requires |s| == 4
  {
    var high: int, low: int := Be16(s[..2]), Be16(s[2..]);
    high * TWO16 + low
  }

  function ToBe16(x: u16): (s: seq<byte>)
    ensures |s| == 2 && Be16(s) == x
  {
    [x / 0x100, x % 0x100]
  }

  function ToBe32(x: u32): (s: seq<byte>)
    ensures |s| == 4 && Be32(s) == x
  {
    var s := ToBe16(x / TWO16) + ToBe16(x % TWO16);
    assert s[..2] == ToBe16(x / TWO16) && s[2..] == ToBe16(x % TWO16);
    s
  }

  lemma PrintBe16(s: seq<byte>)
    requires |s| == 2
    ensures ToBe16(Be16(s)) == s
  {
  }

  lemma PrintBe32(s: seq<byte>)
    requires |s| == 4
    ensures ToBe32(Be32(s)) == s
  {
    PrintBe16(s[..2]);
    PrintBe16(s[2..]);
    assert Be32(s) / TWO16 == Be16(s[..2]) && Be32(s) % TWO16 == Be16(s[2..]);
    assert s[..2] + s[2..] == s;
  }

  /** Equal fields of equal width print alike only when they are equal. */
  lemma ToBe32Injective(x: u32, y: u32)
    requires ToBe32(x) == ToBe32(y)
    ensures x == y
  {
    assert Be32(ToBe32(x)) == Be32(ToBe32(y));
  }

  /** Exclusive or of the low `n` bits. */
  function XorBits(a: nat, b: nat, n: nat): nat {
    if n == 0 then 0 else 2 * XorBits(a / 2, b / 2, n - 1) + (a + b) % 2
  }

  function Pow2(n: nat): nat {
    if n == 0 then 1 else 2 * Pow2(n - 1)
  }

  lemma Parity(a: nat, b: nat, high: nat)
    ensures var x := 2 * high + (a + b) % 2;
            x / 2 == high && (x + b) % 2 == a % 2
  {
  }

  lemma {:induction false} XorBitsCancels(a: nat, b: nat, n: nat)
    requires a < Pow2(n)
    ensures XorBits(a, b, n) < Pow2(n)
    ensures XorBits(XorBits(a, b, n), b, n) == a
  {
    if n > 0 {
      var high := XorBits(a / 2, b / 2, n - 1);
      XorBitsCancels(a / 2, b / 2, n - 1);
      Parity(a, b, high);
    }
  }

  function XorByte(a: byte, b: byte): byte {
    assert Pow2(8) == 0x100;
    XorBitsCancels(a, b, 8);
    XorBits(a, b, 8)
  }

  lemma XorByteCancels(a: byte, b: byte)
    ensures XorByte(XorByte(a, b), b) == a
  {
    assert Pow2(8) == 0x100;
    XorBitsCancels(a, b, 8);
  }

  lemma XorByteInjective(a: byte, b: byte, k: byte)
    requires XorByte(a, k) == XorByte(b, k)
    ensures a == b
  {
    XorByteCancels(a, k);
    XorByteCancels(b, k);
  }
}
