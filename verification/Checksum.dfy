/** common/checksum.h: 16-bit ones' complement sums, the cached delta of an address
    change, and the in-place rewrite of an IPv4 header with it. */
module Checksum {
  import opened Words

  // ---------------------------------------------------------------- the standard

  /** One step of the Internet sum: addition with end-around carry (section 1 of RFC 1071). */
  function EndAround(a: u16, b: u16): u16 {
    if a + b > 0xffff then a + b - 0xffff else a + b
  }

  /** The Internet sum of a block of words. */
  function OnesSum(ws: seq<u16>): u16 {
    if ws == [] then 0 else EndAround(ws[0], OnesSum(ws[1..]))
  }

  /** A block carrying its own checksum is accepted when it sums to all ones. */
  predicate Verifies(ws: seq<u16>) {
    OnesSum(ws) == 0xffff
  }

  /** The two 16-bit zeros of ones' complement are one number. */
  predicate Same(a: u16, b: u16) {
    a == b || (a == 0 && b == 0xffff) || (a == 0xffff && b == 0)
  }

  // ---------------------------------------------------------------- residues

  /** The 16-bit form every folding of `n` arrives at: the residue modulo 0xffff, with
      0xffff for the non-zero multiples. */
  function Norm(n: nat): (r: u16)
    ensures r == 0 <==> n == 0
  {
    if n <= 0xffff then n else Norm(n - 0xffff)
  }

  lemma {:induction false} NormExact(n: nat) returns (k: nat)
    ensures n == Norm(n) + k * 0xffff
  {
    if n <= 0xffff {
      k := 0;
    } else {
      k := NormExact(n - 0xffff);
      k := k + 1;
    }
  }

  /** Being congruent and zero together makes a 16-bit number the folded form. */
  lemma {:induction false} NormBy(n: nat, r: u16, k: int)
    requires n == r + k * 0xffff && (r == 0 <==> n == 0)
    ensures r == Norm(n)
  {
    if n > 0xffff {
      NormBy(n - 0xffff, r, k - 1);
    }
  }

  lemma NormAgrees(m: nat, n: nat, k: int)
    requires m == n + k * 0xffff && (m == 0 <==> n == 0)
    ensures Norm(m) == Norm(n)
  {
    var j := NormExact(n);
    NormBy(m, Norm(n), k + j);
  }

  lemma Congruent(x: nat, y: nat, k: int)
    requires x == y + k * 0xffff
    ensures x % 0xffff == y % 0xffff
  {}

  lemma SameIffCongruent(a: u16, b: u16)
    ensures Same(a, b) <==> a % 0xffff == b % 0xffff
  {}

  lemma {:induction false} OnesSumIsNorm(ws: seq<u16>)
    ensures OnesSum(ws) == Norm(Sum(ws))
  {
    if ws != [] {
      var t: seq<u16> := ws[1..];
      OnesSumIsNorm(t);
      var k := NormExact(Sum(t));
      NormBy(ws[0] + Sum(t), EndAround(ws[0], OnesSum(t)),
             if ws[0] + OnesSum(t) > 0xffff then k + 1 else k);
    }
  }

  lemma VerifiesIff(ws: seq<u16>)
    ensures Verifies(ws) <==> Sum(ws) != 0 && Sum(ws) % 0xffff == 0
  {
    OnesSumIsNorm(ws);
    var k := NormExact(Sum(ws));
    Congruent(Sum(ws), Norm(Sum(ws)), k);
  }

  // ---------------------------------------------------------------- the code

  /** add16forCheckSum: a 32-bit add, then the high half added to the low half and the
      result cut to 16 bits. */
  function Add16(olddata: u16, newdata: u16): u16 {
    var sum: u32 := olddata + newdata;
    Lo(Hi(sum) + Lo(sum))
  }

  /** ADDCARRY. */
  function AddCarry(x: u32): u32 {
    if x > 65535 then x - 65535 else x
  }

  /** calc_chksum_delta on addresses already brought to host order by ntohl. */
  function Delta(old32: u32, new32: u32): u16 {
    var inv: u32 := 0xffff_ffff - old32;
    var acc: u32 := Lo(inv) + Hi(inv) + Lo(new32) + Hi(new32);
    var sum := AddCarry(Lo(acc) + Hi(acc));
    0xffff - Lo(sum)
  }

  lemma Add16IsEndAround(a: u16, b: u16)
    ensures Add16(a, b) == EndAround(a, b)
    ensures Add16(a, b) == 0 <==> a == 0 && b == 0
  {}

  /** How far the delta is from old minus new: a multiple of 0xffff. */
  lemma DeltaExact(a: u32, b: u32) returns (k: int)
    ensures Delta(a, b) + Lo(b) + Hi(b) == Lo(a) + Hi(a) + k * 0xffff
  {
    var inv: u32 := 0xffff_ffff - a;
    assert Lo(inv) == 0xffff - Lo(a) && Hi(inv) == 0xffff - Hi(a);
    var acc: u32 := Lo(inv) + Hi(inv) + Lo(b) + Hi(b);
    assert acc == Hi(acc) * 0x1_0000 + Lo(acc);
    k := Hi(acc) - 1 + (if Lo(acc) + Hi(acc) > 65535 then 1 else 0);
  }

  lemma Add16Exact(a: u16, b: u16) returns (k: int)
    ensures Add16(a, b) == a + b + k * 0xffff
  {
    Add16IsEndAround(a, b);
    k := if a + b > 0xffff then -1 else 0;
  }

  // ---------------------------------------------------------------- IPv4 headers

  const SUM := 5
  const DST := 8

  /** The 16-bit words of an IPv4 header in host order; the header may carry options. */
  predicate Header(h: seq<u16>) {
    |h| >= 10
  }

  function Join(hi: u16, lo: u16): (r: u32)
    ensures Hi(r) == hi && Lo(r) == lo
  {
    0x1_0000 * hi + lo
  }

  function Dst(h: seq<u16>): u32
    requires Header(h)
  {
    Join(h[DST], h[DST + 1])
  }

  function Rewritten(h: seq<u16>, dst: u32, delta: u16): (r: seq<u16>)
    requires Header(h)
    ensures |r| == |h|
  {
    h[DST := Hi(dst)][DST + 1 := Lo(dst)][SUM := Add16(h[SUM], delta)]
  }

  /** What computing the checksum field of `h` from scratch gives (section 3.1 of RFC 791). */
  function Recomputed(h: seq<u16>): u16
    requires Header(h)
  {
    0xffff - OnesSum(h[SUM := 0])
  }

  /** The header rewrite of front proc_v4 and backend proc_v4_in. */
  method RewriteDestination(hdr: array<u16>, dst: u32, delta: u16)
    requires hdr.Length >= 10
    modifies hdr
    ensures hdr[..] == Rewritten(old(hdr[..]), dst, delta)
  {
    hdr[DST], hdr[DST + 1] := Hi(dst), Lo(dst);
    hdr[SUM] := Add16(hdr[SUM], delta);
  }

  lemma RewrittenSum(h: seq<u16>, dst: u32, delta: u16)
    requires Header(h)
    ensures Sum(Rewritten(h, dst, delta)) + h[DST] + h[DST + 1] + h[SUM]
         == Sum(h) + Hi(dst) + Lo(dst) + Add16(h[SUM], delta)
  {
    var h1: seq<u16> := h[DST := Hi(dst)];
    var h2: seq<u16> := h1[DST + 1 := Lo(dst)];
    SumUpdate(h, DST, Hi(dst));
    SumUpdate(h1, DST + 1, Lo(dst));
    SumUpdate(h2, SUM, Add16(h[SUM], delta));
  }

  /** In the words of a rewritten header: the destination in words 8 and 9, the sum in word 5,
      and nothing else. */
  lemma RewrittenWords(h: seq<u16>, dst: u32, delta: u16)
    requires Header(h)
    ensures var r := Rewritten(h, dst, delta);
            && |r| == |h| && r[8] == dst / 0x1_0000 && r[9] == dst % 0x1_0000
            && r[5] == EndAround(h[5], delta)
            && forall i :: 0 <= i < |h| && i != 5 && i != 8 && i != 9 ==> r[i] == h[i]
  {
    Add16IsEndAround(h[5], delta);
  }

  lemma RewrittenDst(h: seq<u16>, dst: u32, delta: u16)
    requires Header(h)
    ensures Dst(Rewritten(h, dst, delta)) == dst
  {}

  lemma {:induction false} SumIsZero(ws: seq<nat>)
    ensures Sum(ws) == 0 <==> forall i :: 0 <= i < |ws| ==> ws[i] == 0
  {
    if ws != [] {
      SumIsZero(ws[1..]);
      assert forall i :: 0 < i < |ws| ==> ws[i] == ws[1..][i - 1];
      assert forall i :: 0 <= i < |ws| - 1 ==> ws[1..][i] == ws[i + 1];
    }
  }

  /** Nothing in the header but a destination. */
  predicate OnlyDst(h: seq<u16>) {
    forall i :: 0 <= i < |h| && i != DST && i != DST + 1 ==> h[i] == 0
  }

  lemma RewriteCongruent(h: seq<u16>, new32: u32)
    requires Header(h)
    ensures Sum(Rewritten(h, new32, Delta(Dst(h), new32))) % 0xffff == Sum(h) % 0xffff
  {
    var d := Delta(Dst(h), new32);
    RewrittenSum(h, new32, d);
    var k1 := DeltaExact(Dst(h), new32);
    var k2 := Add16Exact(h[SUM], d);
    Congruent(Sum(Rewritten(h, new32, d)), Sum(h), k1 + k2);
  }

  /** A header with nothing but a destination sums to the halves of that destination. */
  lemma OnlyDstSum(h: seq<u16>, z: seq<u16>)
    requires Header(h) && OnlyDst(h) && z == h[DST := 0][DST + 1 := 0]
    ensures Sum(z) == 0 && Sum(h) == Sum(z) + h[DST] + h[DST + 1]
  {
    var y: seq<u16> := h[DST := 0];
    SumUpdate(h, DST, 0);
    SumUpdate(y, DST + 1, 0);
    SumIsZero(z);
  }

  lemma HalvesOfInverse(a: u32, inv: u32)
    requires inv == 0xffff_ffff - a
    ensures Lo(inv) == 0xffff - Lo(a) && Hi(inv) == 0xffff - Hi(a)
  {}

  /** The delta to the zero address, for an address whose halves sum to a residue of zero. */
  lemma DeltaToZero(a: u32, s: u16)
    requires Lo(a) + Hi(a) + s == 0x1_fffe
    ensures Delta(a, 0) == 0xffff - s
  {
    HalvesOfInverse(a, 0xffff_ffff - a);
    HalvesOfZero(0);
    assert Lo(s) == s && Hi(s) == 0;
  }

  lemma UpdatedToZero(h: seq<u16>, hi: u16, lo: u16, s: u16)
    requires Header(h)
    ensures Sum(h[DST := hi][DST + 1 := lo][SUM := s]) == 0 <==>
              && hi == 0 && lo == 0 && s == 0
              && forall i :: 0 <= i < |h| && i != DST && i != DST + 1 && i != SUM ==> h[i] == 0
  {
    var r: seq<u16> := h[DST := hi][DST + 1 := lo][SUM := s];
    SumIsZero(r);
    assert r[DST] == hi && r[DST + 1] == lo && r[SUM] == s;
    assert forall i :: 0 <= i < |h| && i != DST && i != DST + 1 && i != SUM ==> h[i] == r[i];
  }

  /** When the rewrite leaves nothing but zeros. */
  lemma RewrittenToZero(h: seq<u16>, new32: u32, d: u16)
    requires Header(h)
    ensures Sum(Rewritten(h, new32, d)) == 0 <==> new32 == 0 && OnlyDst(h) && d == 0
  {
    UpdatedToZero(h, Hi(new32), Lo(new32), Add16(h[SUM], d));
    Add16IsEndAround(h[SUM], d);
    HalvesOfZero(new32);
  }

  lemma HalvesOfZero(x: u32)
    ensures Hi(x) == 0 && Lo(x) == 0 <==> x == 0
  {}

  lemma HalvesOfOnes(x: u32)
    ensures Hi(x) == 0xffff && Lo(x) == 0xffff <==> x == 0xffff_ffff
  {}

  lemma OnlyDstDelta(h: seq<u16>)
    requires Header(h) && Verifies(h) && OnlyDst(h)
    ensures Delta(Dst(h), 0) == 0 <==> Dst(h) != 0xffff_ffff
  {
    OnlyDstSum(h, h[DST := 0][DST + 1 := 0]);
    VerifiesIff(h);
    var s := PairOfVerifying(h[DST], h[DST + 1]);
    DeltaToZero(Dst(h), s);
    HalvesOfOnes(Dst(h));
  }

  /** What two words that verify lack of the largest sum. */
  lemma PairOfVerifying(hi: u16, lo: u16) returns (s: u16)
    requires var n: nat := hi + lo; n != 0 && n % 0xffff == 0
    ensures hi + lo + s == 0x1_fffe && (s == 0xffff || s == 0)
    ensures s == 0 <==> hi == 0xffff && lo == 0xffff
  {
    s := if hi == 0xffff && lo == 0xffff then 0 else 0xffff;
  }

  /** Main result: replacing the destination and adding the cached delta turns a header that
      verifies into one that verifies, except exactly when a header that holds nothing but a
      destination other than 255.255.255.255 is sent to 0.0.0.0. */
  lemma RewriteKeepsVerifying(h: seq<u16>, new32: u32)
    requires Header(h) && Verifies(h)
    ensures !Verifies(Rewritten(h, new32, Delta(Dst(h), new32)))
       <==> new32 == 0 && OnlyDst(h) && Dst(h) != 0xffff_ffff
  {
    var r := Rewritten(h, new32, Delta(Dst(h), new32));
    RewriteCongruent(h, new32);
    VerifiesIff(h);
    VerifiesIff(r);
    RewrittenToZero(h, new32, Delta(Dst(h), new32));
    if OnlyDst(h) && new32 == 0 {
      OnlyDstDelta(h);
    }
  }

  lemma AddNothing(s: u16)
    ensures Add16(s, 0) == s && Hi(0) == 0 && Lo(0) == 0
  {}

  lemma ClearedSum(h: seq<u16>)
    requires Header(h)
    ensures Sum(h) == Sum(Rewritten(h, 0, 0)) + (Hi(Dst(h)) + Lo(Dst(h)))
  {
    RewrittenSum(h, 0, 0);
    AddNothing(h[SUM]);
  }

  /** Replacing the destination by 0.0.0.0 and adding no delta: exactly when the header still
      verifies. */
  lemma ClearedDestination(h: seq<u16>)
    requires Header(h) && Verifies(h)
    ensures Verifies(Rewritten(h, 0, 0)) <==> CountsAsZero(Dst(h)) && !OnlyDst(h)
  {
    RewrittenToZero(h, 0, 0);
    ClearedSum(h);
    PartVerifies(h, Rewritten(h, 0, 0), Hi(Dst(h)) + Lo(Dst(h)));
  }

  /** What is left of a block that verifies when a part of its sum is taken away. */
  lemma PartVerifies(h: seq<u16>, r: seq<u16>, part: nat)
    requires Verifies(h) && Sum(h) == Sum(r) + part
    ensures Verifies(r) <==> IsMultiple(part) && Sum(r) != 0
  {
    VerifiesIff(h);
    VerifiesIff(r);
    Remainders(Sum(r), part, Sum(h));
    MultipleIsModulo(part);
  }

  /** A multiple of 0xffff. */
  predicate IsMultiple(n: nat) {
    if n < 0xffff then n == 0 else IsMultiple(n - 0xffff)
  }

  lemma {:induction false} MultipleIsModulo(n: nat)
    ensures IsMultiple(n) <==> n % 0xffff == 0
  {
    if n >= 0xffff {
      MultipleIsModulo(n - 0xffff);
    }
  }

  /** An address whose halves sum to a zero of ones' complement. */
  predicate CountsAsZero(a: u32) {
    IsMultiple(Hi(a) + Lo(a))
  }

  lemma Remainders(rest: nat, part: nat, whole: nat)
    requires whole == rest + part && whole % 0xffff == 0
    ensures rest % 0xffff == 0 <==> part % 0xffff == 0
  {}

  /** Every header whose first word is not zero (the version nibble of IPv4 is 4) is safe. */
  lemma VersionedHeaderVerifies(h: seq<u16>, new32: u32)
    requires Header(h) && Verifies(h) && h[0] != 0
    ensures Verifies(Rewritten(h, new32, Delta(Dst(h), new32)))
  {
    RewriteKeepsVerifying(h, new32);
  }

  /** The incremental field against the field computed from scratch: the same number, and bit
      for bit the same but for one corner, where the scratch value is 0x0000 and the
      incremental one 0xffff. */
  lemma IncrementalAgainstRecomputed(h: seq<u16>, new32: u32)
    requires Header(h) && Verifies(h)
    requires !(new32 == 0 && OnlyDst(h) && Dst(h) != 0xffff_ffff)
    ensures var delta := Delta(Dst(h), new32);
            var r := Rewritten(h, new32, delta);
            && Same(r[SUM], Recomputed(r))
            && (r[SUM] != Recomputed(r) <==>
                 Recomputed(r) == 0 && !(h[SUM] == 0 && delta == 0))
  {
    var delta := Delta(Dst(h), new32);
    var r := Rewritten(h, new32, delta);
    RewriteKeepsVerifying(h, new32);
    FieldOfVerifying(r);
    Add16IsEndAround(h[SUM], delta);
    Corner(h[SUM], delta, Add16(h[SUM], delta), Recomputed(r));
  }

  lemma Corner(s: u16, delta: u16, sum: u16, scratch: u16)
    requires Same(sum, scratch) && (scratch == 0xffff ==> sum == 0xffff)
    requires sum == 0 <==> s == 0 && delta == 0
    ensures sum != scratch <==> scratch == 0 && !(s == 0 && delta == 0)
  {}

  /** The corner is met by an ordinary packet: 10.0.0.1 to 10.0.0.2, sent on to 10.0.102.208. */
  lemma CornerReached(h: seq<u16>)
    requires h == [0x4500, 0x0028, 0, 0, 0x4006, 0x66ce, 0x0a00, 0x0001, 0x0a00, 0x0002]
    ensures Verifies(h)
    ensures var r := Rewritten(h, 0x0a00_66d0, Delta(Dst(h), 0x0a00_66d0));
            r[SUM] == 0xffff && Recomputed(r) == 0
  {
    CornerDelta();
    var r := Rewritten(h, 0x0a00_66d0, 0x9931);
    assert r == [0x4500, 0x0028, 0, 0, 0x4006, 0xffff, 0x0a00, 0x0001, 0x0a00, 0x66d0];
    TenWords(0x4500, 0x0028, 0, 0, 0x4006, 0x66ce, 0x0a00, 0x0001, 0x0a00, 0x0002);
    TenWords(0x4500, 0x0028, 0, 0, 0x4006, 0, 0x0a00, 0x0001, 0x0a00, 0x66d0);
    assert r[SUM := 0] == [0x4500, 0x0028, 0, 0, 0x4006, 0, 0x0a00, 0x0001, 0x0a00, 0x66d0];
  }

  lemma CornerDelta()
    ensures Delta(0x0a00_0002, 0x0a00_66d0) == 0x9931 && Add16(0x66ce, 0x9931) == 0xffff
    ensures Join(0x0a00, 0x0002) == 0x0a00_0002
    ensures Hi(0x0a00_66d0) == 0x0a00 && Lo(0x0a00_66d0) == 0x66d0
  {}

  lemma TenWords(a: u16, b: u16, c: u16, d: u16, e: u16, f: u16, g: u16, h: u16, i: u16, j: u16)
    ensures OnesSum([a, b, c, d, e, f, g, h, i, j])
         == EndAround(a, EndAround(b, EndAround(c, EndAround(d, EndAround(e,
              EndAround(f, EndAround(g, EndAround(h, EndAround(i, EndAround(j, 0))))))))))
  {
    OnesSumOf(a, [b, c, d, e, f, g, h, i, j]);
    OnesSumOf(b, [c, d, e, f, g, h, i, j]);
    OnesSumOf(c, [d, e, f, g, h, i, j]);
    OnesSumOf(d, [e, f, g, h, i, j]);
    OnesSumOf(e, [f, g, h, i, j]);
    OnesSumOf(f, [g, h, i, j]);
    OnesSumOf(g, [h, i, j]);
    OnesSumOf(h, [i, j]);
    OnesSumOf(i, [j]);
    OnesSumOf(j, []);
  }

  lemma OnesSumOf(w: u16, ws: seq<u16>)
    ensures OnesSum([w] + ws) == EndAround(w, OnesSum(ws))
  {}

  /** In a block that verifies the field is the recomputed one up to the two zeros; all ones
      is recomputed only where it already stands. */
  lemma FieldOfVerifying(r: seq<u16>)
    requires Header(r) && Verifies(r)
    ensures Same(r[SUM], Recomputed(r)) && (Recomputed(r) == 0xffff ==> r[SUM] == 0xffff)
  {
    var z: seq<u16> := r[SUM := 0];
    SumUpdate(r, SUM, 0);
    VerifiesIff(r);
    OnesSumIsNorm(z);
    var k := NormExact(Sum(z));
    Congruent(Recomputed(r), r[SUM], 1 + k - Sum(r) / 0xffff);
    SameIffCongruent(r[SUM], Recomputed(r));
  }

  // ---------------------------------------------------------------- two stages

  /** Chaining deltas: front then backend is one delta, and going back undoes it. */
  lemma DeltasCompose(a: u32, b: u32, c: u32)
    ensures Same(Add16(Delta(a, b), Delta(b, c)), Delta(a, c))
    ensures Same(Add16(Delta(a, b), Delta(b, a)), 0)
  {
    var k1 := DeltaExact(a, b);
    var k2 := DeltaExact(b, c);
    var k3 := DeltaExact(a, c);
    var k4 := DeltaExact(b, a);
    var k5 := Add16Exact(Delta(a, b), Delta(b, c));
    var k6 := Add16Exact(Delta(a, b), Delta(b, a));
    Congruent(Add16(Delta(a, b), Delta(b, c)), Delta(a, c), k1 + k2 - k3 + k5);
    Congruent(Add16(Delta(a, b), Delta(b, a)), 0, k1 + k4 + k6);
    SameIffCongruent(Add16(Delta(a, b), Delta(b, c)), Delta(a, c));
    SameIffCongruent(Add16(Delta(a, b), Delta(b, a)), 0);
  }

  /** The whole path of a packet: VIP to backend at the front, where the delta comes from the
      policy cache, then VIP to server at the backend.  The backend looks for the same VIP, so
      the two stages meet only when front backend address and backend VIP agree. */
  lemma TwoStagesVerify(h: seq<u16>, backend: u32, server: u32)
    requires Header(h) && Verifies(h) && backend != 0 && server != 0
    ensures var front := Rewritten(h, backend, Delta(Dst(h), backend));
            var both := Rewritten(front, server, Delta(Dst(front), server));
            var direct := Rewritten(h, server, Delta(Dst(h), server));
            && Verifies(front) && Verifies(both)
            && Dst(front) == backend && Dst(both) == server
            && Same(both[SUM], direct[SUM]) && both[SUM := direct[SUM]] == direct
  {
    var d1, d2, d := Delta(Dst(h), backend), Delta(backend, server), Delta(Dst(h), server);
    var front := Rewritten(h, backend, d1);
    RewriteKeepsVerifying(h, backend);
    RewrittenDst(h, backend, d1);
    RewriteKeepsVerifying(front, server);
    RewrittenDst(front, server, d2);
    SumFieldsAgree(h[SUM], d1, d2, d, Dst(h), backend, server);
  }

  lemma SumFieldsAgree(s: u16, d1: u16, d2: u16, d: u16, a: u32, b: u32, c: u32)
    requires d1 == Delta(a, b) && d2 == Delta(b, c) && d == Delta(a, c)
    ensures Same(Add16(Add16(s, d1), d2), Add16(s, d))
  {
    var k1 := DeltaExact(a, b);
    var k2 := DeltaExact(b, c);
    var k3 := DeltaExact(a, c);
    var k4 := Add16Exact(s, d1);
    var k5 := Add16Exact(Add16(s, d1), d2);
    var k6 := Add16Exact(s, d);
    Congruent(Add16(Add16(s, d1), d2), Add16(s, d), k1 + k2 - k3 + k4 + k5 - k6);
    SameIffCongruent(Add16(Add16(s, d1), d2), Add16(s, d));
  }
}
