/** The initialization vectors as RFC 3711 gives them: 128-bit numbers, not byte layouts. */
module SrtpIv {
  import opened Bytes
  import opened Srtp

  const TWO64 := 0x1_0000_0000_0000_0000

  /** A byte string as a number, most significant byte first. */
  function Number(s: seq<byte>): nat {
    if s == [] then 0 else Number(s[..|s| - 1]) * 0x100 + s[|s| - 1]
  }

  lemma OneByte(s: seq<byte>, b: byte)
    ensures Number(s + [b]) == Number(s) * 0x100 + b
  {
    assert (s + [b])[..|s|] == s;
  }

  lemma TwoBytes(s: seq<byte>, x: u16)
    ensures Number(s + ToBe16(x)) == Number(s) * TWO16 + x
  {
    var b := ToBe16(x);
    assert s + b == (s + [b[0]]) + [b[1]];
    OneByte(s, b[0]);
    OneByte(s + [b[0]], b[1]);
  }

  lemma FourBytes(s: seq<byte>, x: u32)
    ensures Number(s + ToBe32(x)) == Number(s) * TWO32 + x
  {
    assert s + ToBe32(x) == (s + ToBe16(x / TWO16)) + ToBe16(x % TWO16);
    TwoBytes(s, x / TWO16);
    TwoBytes(s + ToBe16(x / TWO16), x % TWO16);
  }

  // ----- Exclusive or, byte by byte and all at once

  /** `a` with `k` zero bits appended. */
  function Shift(a: nat, k: nat): nat {
    if k == 0 then a else 2 * Shift(a, k - 1)
  }

  lemma {:induction false} XorSplits(a: nat, b: nat, x: nat, y: nat, n: nat, k: nat)
    requires x < Pow2(k) && y < Pow2(k)
    ensures XorBits(Shift(a, k) + x, Shift(b, k) + y, n + k) == Shift(XorBits(a, b, n), k) + XorBits(x, y, k)
  {
    hide XorBits, Shift, Pow2;
    if k == 0 {
      NothingShifted(a, b, x, y, n);
    } else {
      Pow2Unfolds(k);
      XorSplits(a, b, x / 2, y / 2, n, k - 1);
      ShiftUnfolds(a, x, k);
      ShiftUnfolds(b, y, k);
      ShiftUnfolds(XorBits(a, b, n), 0, k);
      XorUnfolds(Shift(a, k) + x, Shift(b, k) + y, n + k);
      XorUnfolds(x, y, k);
    }
  }

  lemma NothingShifted(a: nat, b: nat, x: nat, y: nat, n: nat)
    requires x < Pow2(0) && y < Pow2(0)
    ensures XorBits(Shift(a, 0) + x, Shift(b, 0) + y, n) == Shift(XorBits(a, b, n), 0) + XorBits(x, y, 0)
  {
  }

  lemma Pow2Unfolds(k: nat)
    requires k > 0
    ensures Pow2(k) == 2 * Pow2(k - 1)
  {
  }

  lemma ShiftUnfolds(a: nat, x: nat, k: nat)
    requires k > 0
    ensures Shift(a, k) == 2 * Shift(a, k - 1)
    ensures (Shift(a, k) + x) / 2 == Shift(a, k - 1) + x / 2
  {
  }

  lemma XorUnfolds(a: nat, b: nat, n: nat)
    requires n > 0
    ensures XorBits(a, b, n) == 2 * XorBits(a / 2, b / 2, n - 1) + (a + b) % 2
  {
  }

  lemma ShiftByte(a: nat)
    ensures Shift(a, 8) == a * 0x100
  {
    ShiftUnfolds(a, 0, 8); ShiftUnfolds(a, 0, 7); ShiftUnfolds(a, 0, 6); ShiftUnfolds(a, 0, 5);
    ShiftUnfolds(a, 0, 4); ShiftUnfolds(a, 0, 3); ShiftUnfolds(a, 0, 2); ShiftUnfolds(a, 0, 1);
  }

  function Xored(p: seq<byte>, q: seq<byte>): (r: seq<byte>)
    requires |p| == |q|
    ensures |r| == |p|
  {
    seq<byte>(|p|, i requires 0 <= i < |p| => XorByte(p[i], q[i]))
  }

  lemma {:induction false} XoredNumber(p: seq<byte>, q: seq<byte>)
    requires |p| == |q|
    ensures Number(Xored(p, q)) == XorBits(Number(p), Number(q), 8 * |p|)
  {
    if p != [] {
      var n := |p| - 1;
      XoredNumber(p[..n], q[..n]);
      assert Xored(p, q) == Xored(p[..n], q[..n]) + [XorByte(p[n], q[n])];
      OneByte(Xored(p[..n], q[..n]), XorByte(p[n], q[n]));
      assert Pow2(8) == 0x100;
      var a, b := Number(p[..n]), Number(q[..n]);
      XorSplits(a, b, p[n], q[n], 8 * n, 8);
      ShiftByte(a);
      ShiftByte(b);
      ShiftByte(XorBits(a, b, 8 * n));
    }
  }

  lemma {:induction false} XorZero(x: nat, n: nat)
    requires x < Pow2(n)
    ensures XorBits(x, 0, n) == x
  {
    if n > 0 { XorZero(x / 2, n - 1); }
  }

  /** The salt shifted left by 16 bits. */
  lemma SaltIsShifted(salt: Salt)
    ensures Number(salt + [0, 0]) == Number(salt) * TWO16
  {
    assert salt + [0, 0] == (salt + [0]) + [0];
    OneByte(salt, 0);
    OneByte(salt + [0], 0);
  }

  lemma SaltingIsXor(block: Iv, salt: Salt)
    ensures Number(XorSalt(block, salt)) == XorBits(Number(block), Number(salt) * TWO16, 128)
  {
    var shifted: seq<byte> := salt + [0, 0];
    assert Pow2(8) == 0x100;
    forall i | 0 <= i < 16 ensures XorSalt(block, salt)[i] == Xored(block, shifted)[i] {
      if i >= SESSION_SALT_LEN { XorZero(block[i], 8); }
    }
    assert XorSalt(block, salt) == Xored(block, shifted);
    XoredNumber(block, shifted);
    SaltIsShifted(salt);
  }

  // ----- The formulas

  lemma FourZeros()
    ensures Number([0, 0, 0, 0]) == 0
  {
    assert [0, 0, 0, 0] == [] + ToBe32(0);
    FourBytes([], 0);
  }

  /** IV = (k_s * 2^16) XOR (SSRC * 2^64) XOR (i * 2^16), with i = ROC || SEQ (section 4.1.1); the
      last two have no bit in common. */
  lemma RtpIvIsTheFormula(salt: Salt, ssrc: u32, roc: u32, s: u16)
    ensures Number(RtpIv(salt, ssrc, roc, s))
         == XorBits(ssrc * TWO64 + PacketIndex(roc, s) * TWO16, Number(salt) * TWO16, 128)
  {
    var start: seq<byte> := [0, 0, 0, 0];
    var block: Iv := start + ToBe32(ssrc) + ToBe32(roc) + ToBe16(s) + [0, 0];
    FourZeros();
    FourBytes(start, ssrc);
    FourBytes(start + ToBe32(ssrc), roc);
    TwoBytes(start + ToBe32(ssrc) + ToBe32(roc), s);
    TwoBytes(start + ToBe32(ssrc) + ToBe32(roc) + ToBe16(s), 0);
    assert ToBe16(0) == [0, 0];
    SaltingIsXor(block, salt);
  }

  /** The same for SRTCP, with its own index. */
  lemma RtcpIvIsTheFormula(salt: Salt, ssrc: u32, index: u32)
    ensures Number(RtcpIv(salt, ssrc, index))
         == XorBits(ssrc * TWO64 + index * TWO16, Number(salt) * TWO16, 128)
  {
    var start: seq<byte> := [0, 0, 0, 0];
    var block: Iv := start + ToBe32(ssrc) + [0, 0] + ToBe32(index) + [0, 0];
    assert ToBe16(0) == [0, 0];
    FourZeros();
    FourBytes(start, ssrc);
    TwoBytes(start + ToBe32(ssrc), 0);
    FourBytes(start + ToBe32(ssrc) + ToBe16(0), index);
    TwoBytes(start + ToBe32(ssrc) + ToBe16(0) + ToBe32(index), 0);
    SaltingIsXor(block, salt);
  }
}
