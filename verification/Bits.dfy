/** Bitwise conjunction, single bits and byte swaps of machine words. */
module Bits {
  import opened Words

  function And(x: nat, y: nat): (r: nat)
    ensures r <= x && r <= y
  {
    if x == 0 || y == 0 then 0 else (x % 2) * (y % 2) + 2 * And(x / 2, y / 2)
  }

  /** Bit k, of weight 2 to the k. */
  predicate Bit(x: nat, k: nat) {
    if k == 0 then x % 2 == 1 else Bit(x / 2, k - 1)
  }

  function Pow2(n: nat): (r: nat)
    ensures r > 0
  {
    if n == 0 then 1 else 2 * Pow2(n - 1)
  }

  lemma {:induction false} BitOfZero(k: nat)
    ensures !Bit(0, k)
  {
    if k > 0 {
      BitOfZero(k - 1);
    }
  }

  lemma {:induction false} BitOfAnd(x: nat, y: nat, k: nat)
    ensures Bit(And(x, y), k) <==> Bit(x, k) && Bit(y, k)
  {
    if x == 0 || y == 0 {
      BitOfZero(k);
    } else {
      HalveAnd(x, y);
      if k > 0 {
        BitOfAnd(x / 2, y / 2, k - 1);
      }
    }
  }

  lemma HalveAnd(x: nat, y: nat)
    ensures And(x, y) / 2 == And(x / 2, y / 2) && And(x, y) % 2 == (x % 2) * (y % 2)
  {
    assert x % 2 == 0 || x % 2 == 1;
    assert y % 2 == 0 || y % 2 == 1;
  }

  /** A number is its bits. */
  lemma {:induction false} EqualBits(x: nat, y: nat)
    requires forall k: nat :: Bit(x, k) <==> Bit(y, k)
    ensures x == y
    decreases x + y
  {
    if x + y > 0 {
      assert Bit(x, 0) <==> Bit(y, 0);
      forall k: nat
        ensures Bit(x / 2, k) <==> Bit(y / 2, k)
      {
        assert Bit(x, k + 1) <==> Bit(y, k + 1);
      }
      EqualBits(x / 2, y / 2);
    }
  }

  /** x and y have the same bits wherever m has a one. */
  ghost predicate AgreeOn(x: nat, y: nat, m: nat) {
    forall k: nat :: Bit(m, k) ==> (Bit(x, k) <==> Bit(y, k))
  }

  /** Comparing under a mask compares exactly the bits the mask selects, contiguous or not. */
  lemma MaskSelects(x: nat, y: nat, m: nat)
    ensures And(x, m) == And(y, m) <==> AgreeOn(x, y, m)
  {
    if And(x, m) == And(y, m) {
      forall k: nat | Bit(m, k)
        ensures Bit(x, k) <==> Bit(y, k)
      {
        BitOfAnd(x, m, k);
        BitOfAnd(y, m, k);
      }
      assert AgreeOn(x, y, m);
    }
    if AgreeOn(x, y, m) {
      forall k: nat
        ensures Bit(And(x, m), k) <==> Bit(And(y, m), k)
      {
        BitOfAnd(x, m, k);
        BitOfAnd(y, m, k);
      }
      EqualBits(And(x, m), And(y, m));
    }
  }

  lemma {:induction false} HighBits(x: nat, w: nat, k: nat)
    requires x < Pow2(w) && w <= k
    ensures !Bit(x, k)
  {
    if w == 0 {
      BitOfZero(k);
    } else {
      HighBits(x / 2, w - 1, k - 1);
    }
  }

  lemma Pow2Of32()
    ensures Pow2(8) == 0x100 && Pow2(32) == 0x1_0000_0000
  {
    assert Pow2(8) == 16 * Pow2(4);
    assert Pow2(16) == 0x100 * Pow2(8) by {
      assert Pow2(12) == 16 * Pow2(8);
    }
    assert Pow2(24) == 0x100 * Pow2(16) by {
      assert Pow2(20) == 16 * Pow2(16);
    }
    assert Pow2(32) == 0x100 * Pow2(24) by {
      assert Pow2(28) == 16 * Pow2(24);
    }
  }

  lemma AndOnes(x: nat, p: nat)
    requires p > 0
    ensures And(x, 2 * p - 1) == x % 2 + 2 * And(x / 2, p - 1)
  {
    assert (2 * p - 1) / 2 == p - 1 && (2 * p - 1) % 2 == 1;
  }

  lemma Doubled(x: nat, h: nat, a: nat, q: nat, p: nat)
    requires h == x / 2 && h == q * p + a
    ensures x == q * (2 * p) + (x % 2 + 2 * a)
  {}

  /** Masking with k ones keeps the remainder by 2 to the k. */
  lemma {:induction false} LowBits(x: nat, k: nat, p: nat) returns (q: nat)
    requires p == Pow2(k)
    ensures And(x, p - 1) < p && x == q * p + And(x, p - 1)
  {
    if k == 0 {
      q := x;
    } else {
      q := LowBits(x / 2, k - 1, Pow2(k - 1));
      AndOnes(x, Pow2(k - 1));
      Doubled(x, x / 2, And(x / 2, Pow2(k - 1) - 1), q, Pow2(k - 1));
    }
  }

  // ---------------------------------------------------------------- prefix masks

  /** `0xffffffff << n` in 32 bits. */
  function OnesShifted(n: nat): u32 {
    (0xffff_ffff * Pow2(n)) % 0x1_0000_0000
  }

  lemma {:induction false} Pow2Monotone(n: nat, w: nat)
    requires n < w
    ensures 2 * Pow2(n) <= Pow2(w)
  {
    if n + 1 < w {
      Pow2Monotone(n, w - 1);
    }
  }

  lemma {:induction false} PrefixBits(w: nat, n: nat, k: nat)
    requires n <= w
    ensures Pow2(n) <= Pow2(w)
    ensures Bit(Pow2(w) - Pow2(n), k) <==> n <= k < w
  {
    if n == w {
      BitOfZero(k);
    } else {
      Pow2Monotone(n, w);
      if n > 0 {
        assert (Pow2(w) - Pow2(n)) / 2 == Pow2(w - 1) - Pow2(n - 1);
        if k > 0 {
          PrefixBits(w - 1, n - 1, k - 1);
        }
      } else {
        assert (Pow2(w) - 1) / 2 == Pow2(w - 1) - Pow2(0);
        if k > 0 {
          PrefixBits(w - 1, 0, k - 1);
        }
      }
    }
  }

  lemma OnesTimes(p: nat)
    requires 1 <= p < 0x1_0000_0000
    ensures (0xffff_ffff * p) % 0x1_0000_0000 == 0x1_0000_0000 - p
  {}

  lemma OnesShiftedBits(n: nat, k: nat)
    requires n < 32
    ensures Bit(OnesShifted(n), k) <==> n <= k < 32
  {
    Pow2Of32();
    Pow2Monotone(n, 32);
    OnesTimes(Pow2(n));
    PrefixBits(32, n, k);
  }

  // ---------------------------------------------------------------- byte order

  function FromBytes(b3: u8, b2: u8, b1: u8, b0: u8): u32 {
    Push(Push(Push(b3, b2), b1), b0)
  }

  /** Byte i of a word, byte 0 being the least significant. */
  function Byte(x: u32, i: nat): u8 {
    if i == 0 then x % 0x100 else Byte(x / 0x100, i - 1)
  }

  /** ntohl and htonl on a little-endian host. */
  function Swap32(x: u32): u32 {
    FromBytes(Byte(x, 0), Byte(x, 1), Byte(x, 2), Byte(x, 3))
  }

  /** Where bit j of an address, counted from the first bit on the wire, sits in the word a
      little-endian host loads. */
  function WireIndex(j: nat): nat
    requires j < 32
  {
    8 * (j / 8) + 7 - j % 8
  }

  lemma {:induction false} JoinBit(w: nat, hi: nat, lo: nat, k: nat)
    requires lo < Pow2(w)
    ensures Bit(Pow2(w) * hi + lo, k) <==> if k < w then Bit(lo, k) else Bit(hi, k - w)
  {
    if w > 0 {
      var p := Pow2(w - 1);
      assert Pow2(w) * hi == 2 * (p * hi);
      assert (2 * (p * hi) + lo) / 2 == p * hi + lo / 2;
      if k > 0 {
        JoinBit(w - 1, hi, lo / 2, k - 1);
      }
    }
  }

  lemma JoinByte(hi: nat, lo: u8, k: nat)
    ensures Bit(Push(hi, lo), k) <==> if k < 8 then Bit(lo, k) else Bit(hi, k - 8)
  {
    Pow2Of32();
    JoinBit(8, hi, lo, k);
  }

  lemma WireIndexTwice(j: nat)
    requires j < 32
    ensures WireIndex(j) < 32 && WireIndex(WireIndex(j)) == j
    ensures WireIndex(j) / 8 == j / 8 && WireIndex(j) % 8 == 7 - j % 8
    ensures (31 - j) / 8 == 3 - j / 8 && (31 - j) % 8 == 7 - j % 8
  {}

  lemma BytesBit(b3: u8, b2: u8, b1: u8, b0: u8, q: nat, r: nat)
    requires q < 4 && r < 8
    ensures Bit(FromBytes(b3, b2, b1, b0), 8 * q + r)
       <==> Bit(if q == 0 then b0 else if q == 1 then b1 else if q == 2 then b2 else b3, r)
  {
    var h2 := Push(b3, b2);
    var h1 := Push(h2, b1);
    JoinByte(h1, b0, 8 * q + r);
    if q >= 1 {
      JoinByte(h2, b1, 8 * (q - 1) + r);
    }
    if q >= 2 {
      JoinByte(b3, b2, 8 * (q - 2) + r);
    }
  }

  lemma WordIsBytes(x: u32)
    ensures x == FromBytes(Byte(x, 3), Byte(x, 2), Byte(x, 1), Byte(x, 0))
  {
    var y: u32 := x / 0x100;
    var z: u32 := y / 0x100;
    assert Byte(x, 1) == Byte(y, 0) && Byte(x, 2) == Byte(y, 1) == Byte(z, 0);
    assert Byte(x, 3) == Byte(y, 2) == Byte(z, 1) == z / 0x100;
  }

  /** A 32-bit word byte by byte. */
  lemma WordBit(x: u32, q: nat, r: nat)
    requires q < 4 && r < 8
    ensures Bit(x, 8 * q + r) <==> Bit(Byte(x, q), r)
  {
    WordIsBytes(x);
    BytesBit(Byte(x, 3), Byte(x, 2), Byte(x, 1), Byte(x, 0), q, r);
  }

  /** Two words agree under a mask in each of their four bytes. */
  ghost predicate AgreeOnBytes(x: u32, y: u32, m: u32) {
    && AgreeOn(Byte(x, 0), Byte(y, 0), Byte(m, 0)) && AgreeOn(Byte(x, 1), Byte(y, 1), Byte(m, 1))
    && AgreeOn(Byte(x, 2), Byte(y, 2), Byte(m, 2)) && AgreeOn(Byte(x, 3), Byte(y, 3), Byte(m, 3))
  }

  /** Comparing under a mask byte by byte compares the words under it. */
  lemma AgreeByBytes(x: u32, y: u32, m: u32)
    ensures AgreeOn(x, y, m) <==> AgreeOnBytes(x, y, m)
  {
    if AgreeOn(x, y, m) {
      BytesAgree(x, y, m, 0);
      BytesAgree(x, y, m, 1);
      BytesAgree(x, y, m, 2);
      BytesAgree(x, y, m, 3);
    }
    if AgreeOnBytes(x, y, m) {
      forall k: nat | Bit(m, k)
        ensures Bit(x, k) <==> Bit(y, k)
      {
        BitAgrees(x, y, m, k);
      }
      assert AgreeOn(x, y, m);
    }
  }

  lemma BitAgrees(x: u32, y: u32, m: u32, k: nat)
    requires AgreeOnBytes(x, y, m) && Bit(m, k)
    ensures Bit(x, k) <==> Bit(y, k)
  {
    Pow2Of32();
    if k >= 32 {
      HighBits(m, 32, k);
    } else if k < 8 {
      BitInByte(x, y, m, 0, k);
    } else if k < 16 {
      BitInByte(x, y, m, 1, k - 8);
    } else if k < 24 {
      BitInByte(x, y, m, 2, k - 16);
    } else {
      BitInByte(x, y, m, 3, k - 24);
    }
  }

  lemma BytesAgree(x: u32, y: u32, m: u32, i: nat)
    requires i < 4 && AgreeOn(x, y, m)
    ensures AgreeOn(Byte(x, i), Byte(y, i), Byte(m, i))
  {
    forall r: nat | Bit(Byte(m, i), r)
      ensures Bit(Byte(x, i), r) <==> Bit(Byte(y, i), r)
    {
      Pow2Of32();
      if r >= 8 {
        HighBits(Byte(m, i), 8, r);
      } else {
        WordBit(m, i, r);
        WordBit(x, i, r);
        WordBit(y, i, r);
      }
    }
  }

  lemma BitInByte(x: u32, y: u32, m: u32, q: nat, r: nat)
    requires q < 4 && r < 8 && Bit(m, 8 * q + r) && AgreeOn(Byte(x, q), Byte(y, q), Byte(m, q))
    ensures Bit(x, 8 * q + r) <==> Bit(y, 8 * q + r)
  {
    WordBit(m, q, r);
    WordBit(x, q, r);
    WordBit(y, q, r);
  }

  lemma SwapOfZero(x: u32)
    ensures Swap32(x) == 0 <==> x == 0
  {
    WordIsBytes(x);
  }

  /** Swapping reverses the four bytes. */
  lemma SwapBytes(x: u32)
    ensures Byte(Swap32(x), 0) == Byte(x, 3) && Byte(Swap32(x), 1) == Byte(x, 2)
    ensures Byte(Swap32(x), 2) == Byte(x, 1) && Byte(Swap32(x), 3) == Byte(x, 0)
  {
    BytesBack(Byte(x, 0), Byte(x, 1), Byte(x, 2), Byte(x, 3));
  }

  lemma BytesBack(b3: u8, b2: u8, b1: u8, b0: u8)
    ensures var x := FromBytes(b3, b2, b1, b0);
            Byte(x, 0) == b0 && Byte(x, 1) == b1 && Byte(x, 2) == b2 && Byte(x, 3) == b3
  {
    var h2 := Push(b3, b2);
    var h1 := Push(h2, b1);
    forall i: nat | i < 4
      ensures Byte(FromBytes(b3, b2, b1, b0), i)
           == if i == 0 then b0 else if i == 1 then b1 else if i == 2 then b2 else b3
    {
      PushedByte(h1, b0, i);
      if i > 0 {
        PushedByte(h2, b1, i - 1);
      }
      if i > 1 {
        PushedByte(b3, b2, i - 2);
      }
    }
  }

  lemma PushedByte(hi: u32, lo: u8, i: nat)
    requires Push(hi, lo) < 0x1_0000_0000
    ensures Byte(Push(hi, lo), i) == if i == 0 then lo else Byte(hi, i - 1)
  {}

  /** Swapping puts bit 31 - j where the wire has its bit j. */
  lemma SwapBit(x: u32, j: nat)
    requires j < 32
    ensures Bit(Swap32(x), WireIndex(j)) <==> Bit(x, 31 - j)
  {
    var q, r := j / 8, 7 - j % 8;
    assert WireIndex(j) == 8 * q + r && 31 - j == 8 * (3 - q) + r;
    WordIsBytes(x);
    BytesBit(Byte(x, 0), Byte(x, 1), Byte(x, 2), Byte(x, 3), q, r);
    BytesBit(Byte(x, 3), Byte(x, 2), Byte(x, 1), Byte(x, 0), 3 - q, r);
  }
}
