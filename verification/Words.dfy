/** Unsigned machine words, as naturals with the width written out. */
module Words {
  type u8 = x: nat | x < 0x100
  type u16 = x: nat | x < 0x1_0000
  type u32 = x: nat | x < 0x1_0000_0000

  datatype Option<+T> = None | Some(value: T)

  /** `x++` on a 32-bit counter. */
  function Inc(x: u32): u32 {
    (x + 1) % 0x1_0000_0000
  }

  /** x is y counted up n times, as 32-bit counters. */
  ghost predicate Grown(x: nat, y: nat, n: nat) {
    exists k: int :: Apart(x, y, n, k)
  }

  ghost predicate Apart(x: nat, y: nat, n: nat, k: int) {
    x == y + n + k * 0x1_0000_0000
  }

  lemma GrownIsModulo(x: nat, y: nat, n: nat)
    ensures Grown(x, y, n) <==> x % 0x1_0000_0000 == (y + n) % 0x1_0000_0000
  {
    if x % 0x1_0000_0000 == (y + n) % 0x1_0000_0000 {
      assert Apart(x, y, n, x / 0x1_0000_0000 - (y + n) / 0x1_0000_0000);
    }
  }

  lemma GrownZero(x: nat)
    ensures Grown(x, x, 0)
  {
    assert Apart(x, x, 0, 0);
  }

  lemma GrownShift(x: nat, y: nat, n: nat, a: nat)
    requires Grown(x, y, n)
    ensures Grown(x + a, y + a, n)
  {
    var k :| Apart(x, y, n, k);
    assert Apart(x + a, y + a, n, k);
  }

  lemma GrownChain(x: nat, y: nat, z: nat, c: nat, d: nat)
    requires Grown(x, y, d) && Grown(y, z, c)
    ensures Grown(x, z, c + d)
  {
    var k :| Apart(x, y, d, k);
    var m :| Apart(y, z, c, m);
    assert Apart(x, z, c + d, k + m);
  }

  lemma GrownInc(x: u32)
    ensures Grown(Inc(x), x, 1) && Grown(x + 1, Inc(x), 0)
  {
    assert Apart(Inc(x), x, 1, if x == 0xffff_ffff then -1 else 0);
    assert Apart(x + 1, Inc(x), 0, if x == 0xffff_ffff then 1 else 0);
  }

  function Lo(x: u32): u16 { x % 0x1_0000 }

  function Hi(x: u32): u16 { x / 0x1_0000 }

  /** One more byte behind a number. */
  function Push(hi: nat, lo: u8): nat {
    0x100 * hi + lo
  }

  function Pair(hi: u8, lo: u8): (r: u16)
    ensures r / 0x100 == hi && r % 0x100 == lo
  {
    Push(hi, lo)
  }

  /** The 16-bit word a little-endian host loads. */
  function LoadLe(b: seq<u8>, at: nat): u16
    requires at + 2 <= |b|
  {
    Pair(b[at + 1], b[at])
  }

  function Sum(ws: seq<nat>): nat {
    if ws == [] then 0 else ws[0] + Sum(ws[1..])
  }

  lemma {:induction false} SumAppend(a: seq<nat>, b: seq<nat>)
    ensures Sum(a + b) == Sum(a) + Sum(b)
  {
    if a == [] {
      assert a + b == b;
    } else {
      assert (a + b)[1..] == a[1..] + b;
      SumAppend(a[1..], b);
    }
  }

  lemma {:induction false} SumUpdate(ws: seq<nat>, i: nat, v: nat)
    requires i < |ws|
    ensures Sum(ws[i := v]) + ws[i] == Sum(ws) + v
  {
    assert ws == ws[..i] + ([ws[i]] + ws[i + 1..]);
    assert ws[i := v] == ws[..i] + ([v] + ws[i + 1..]);
    SumAppend(ws[..i], [ws[i]] + ws[i + 1..]);
    SumAppend(ws[..i], [v] + ws[i + 1..]);
  }
}
