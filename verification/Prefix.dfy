/** back/back_init.c, is_same_net: do two addresses share a network prefix?  Addresses are
    arrays of 32-bit words loaded from network order by a little-endian host. */
module Prefix {
  import opened Words
  import opened Bits

  /** Bit k of an address in network order. */
  predicate AddressBit(s: seq<u32>, k: nat)
    requires k < 32 * |s|
  {
    Bit(s[k / 32], WireIndex(k % 32))
  }

  /** The first m bits of two addresses agree. */
  predicate SamePrefix(s: seq<u32>, t: seq<u32>, m: nat)
    requires m <= 32 * |s| && |s| == |t|
  {
    forall k :: 0 <= k < m ==> (AddressBit(s, k) <==> AddressBit(t, k))
  }

  /** Agreement is an equivalence relation for each m, and agreeing further is agreeing here. */
  lemma SamePrefixIsEquivalence(s: seq<u32>, t: seq<u32>, u: seq<u32>, m: nat, n: nat)
    requires m <= n <= 32 * |s| && |s| == |t| == |u|
    ensures SamePrefix(s, s, m)
    ensures SamePrefix(s, t, m) ==> SamePrefix(t, s, m)
    ensures SamePrefix(s, t, m) && SamePrefix(t, u, m) ==> SamePrefix(s, u, m)
    ensures SamePrefix(s, t, n) ==> SamePrefix(s, t, m)
  {}

  /** The first r bits of two words agree, in network order. */
  predicate SameStart(x: u32, y: u32, r: nat)
    requires r <= 32
  {
    forall j :: 0 <= j < r ==> (Bit(x, WireIndex(j)) <==> Bit(y, WireIndex(j)))
  }

  lemma EqualWords(x: u32, y: u32)
    ensures x == y <==> SameStart(x, y, 32)
  {
    if SameStart(x, y, 32) {
      forall k: nat
        ensures Bit(x, k) <==> Bit(y, k)
      {
        Pow2Of32();
        if k < 32 {
          WireIndexTwice(k);
        } else {
          HighBits(x, 32, k);
          HighBits(y, 32, k);
        }
      }
      EqualBits(x, y);
    }
  }

  /** `htonl(0xffffffff << (32 - r))`. */
  function NetMask(r: nat): u32
    requires 1 <= r < 32
  {
    Swap32(OnesShifted(32 - r))
  }

  lemma NetMaskBit(r: nat, k: nat)
    requires 1 <= r < 32
    ensures k < 32 ==> (Bit(NetMask(r), WireIndex(k)) <==> k < r)
    ensures k >= 32 ==> !Bit(NetMask(r), k)
  {
    Pow2Of32();
    if k < 32 {
      SwapBit(OnesShifted(32 - r), k);
      OnesShiftedBits(32 - r, 31 - k);
    } else {
      HighBits(NetMask(r), 32, k);
    }
  }

  /** Comparing under the mask compares the first r bits. */
  lemma EqualMasked(x: u32, y: u32, r: nat)
    requires 1 <= r < 32
    ensures And(x, NetMask(r)) == And(y, NetMask(r)) <==> SameStart(x, y, r)
  {
    MaskSelects(x, y, NetMask(r));
    if And(x, NetMask(r)) == And(y, NetMask(r)) {
      forall j | 0 <= j < r
        ensures Bit(x, WireIndex(j)) <==> Bit(y, WireIndex(j))
      {
        NetMaskBit(r, j);
      }
    }
    if SameStart(x, y, r) {
      forall k: nat | Bit(NetMask(r), k)
        ensures Bit(x, k) <==> Bit(y, k)
      {
        NetMaskBit(r, k);
        WireIndexTwice(k);
        NetMaskBit(r, WireIndex(k));
      }
      assert AgreeOn(x, y, NetMask(r));
    }
  }

  /** Extending an agreed prefix of i whole words by the first r bits of word i. */
  lemma ExtendPrefix(s: seq<u32>, t: seq<u32>, i: nat, r: nat)
    requires |s| == |t| && i < |s| && r <= 32
    requires SamePrefix(s, t, 32 * i)
    ensures SamePrefix(s, t, 32 * i + r) <==> SameStart(s[i], t[i], r)
  {
    if SamePrefix(s, t, 32 * i + r) {
      forall j | 0 <= j < r
        ensures Bit(s[i], WireIndex(j)) <==> Bit(t[i], WireIndex(j))
      {
        assert (32 * i + j) / 32 == i && (32 * i + j) % 32 == j;
        assert AddressBit(s, 32 * i + j) <==> AddressBit(t, 32 * i + j);
      }
    }
    if SameStart(s[i], t[i], r) {
      forall k | 32 * i <= k < 32 * i + r
        ensures AddressBit(s, k) <==> AddressBit(t, k)
      {
        assert k / 32 == i && k % 32 == k - 32 * i;
      }
    }
  }

  /** `len` is the address length in bytes and `mlen` the mask length in bits. */
  method IsSameNet(s1: seq<u32>, s2: seq<u32>, mlen: nat, len: nat) returns (same: bool)
    requires |s1| == |s2| == len / 4
    requires 1 <= mlen <= 32 * (len / 4)
    ensures same <==> SamePrefix(s1, s2, mlen)
  {
    var rest := mlen;
    for i := 0 to len / 4
      invariant rest == mlen - 32 * i && rest > 0
      invariant SamePrefix(s1, s2, 32 * i)
    {
      ExtendPrefix(s1, s2, i, if rest >= 32 then 32 else rest);
      if rest >= 32 {
        EqualWords(s1[i], s2[i]);
        if s1[i] != s2[i] {
          return false;
        }
        rest := rest - 32;
        if rest == 0 {
          return true;
        }
      } else {
        EqualMasked(s1[i], s2[i], rest);
        var mask := NetMask(rest);
        return And(s1[i], mask) == And(s2[i], mask);
      }
    }
    same := true;
  }
}
