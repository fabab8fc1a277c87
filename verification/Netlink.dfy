/** Netlink attributes (common/rt_body.c getattr and parse_rtattr): appending to a message in
    place and finding the attributes again, with 4-byte alignment and 16-bit header fields. */
module Netlink {
  import opened Words

  /** Size of struct rtattr. */
  const HEADER := 4

  /** RTA_ALIGN and NLMSG_ALIGN. */
  function Align(n: nat): (r: nat)
    ensures n <= r < n + 4
  {
    if n == 0 then 0 else if n <= 4 then 4 else 4 + Align(n - 4)
  }

  /** `(n + 3) & ~3`. */
  lemma {:induction false} AlignIsRoundingUp(n: nat)
    ensures Align(n) == (n + 3) / 4 * 4
  {
    if n > 4 {
      AlignIsRoundingUp(n - 4);
    }
  }

  lemma {:induction false} AlignTwice(m: nat, n: nat)
    ensures Align(Align(m) + Align(n)) == Align(m) + Align(n)
    decreases m + n
  {
    if m > 0 {
      AlignTwice(if m <= 4 then 0 else m - 4, n);
    } else if n > 0 {
      AlignTwice(0, if n <= 4 then 0 else n - 4);
    }
  }

  datatype Attr = Attr(kind: u16, data: seq<u8>)

  /** The length field can hold the attribute's length. */
  predicate Fits(a: Attr) {
    HEADER + |a.data| <= 0xffff
  }

  function Size(a: Attr): (r: nat)
    ensures r >= HEADER + |a.data|
  {
    Align(HEADER + |a.data|)
  }

  /** The value a 16-bit field keeps. */
  function Cut(n: nat): u16 {
    if n < 0x1_0000 then n else Cut(n - 0x1_0000)
  }

  lemma {:induction false} CutIsModulo(n: nat)
    ensures Cut(n) == n % 0x1_0000
  {
    if n >= 0x1_0000 {
      CutIsModulo(n - 0x1_0000);
    }
  }

  function Low(x: u16): u8 { x % 0x100 }

  function High(x: u16): u8 { x / 0x100 }

  /** struct rtattr: the length, cut to 16 bits, and the type. */
  function HeaderBytes(length: nat, kind: u16): seq<u8> {
    var size := Cut(length);
    [Low(size), High(size), Low(kind), High(kind)]
  }

  /** Attribute `a` starts at `at`, payload intact; its padding may be anything. */
  predicate Starts(b: seq<u8>, at: nat, a: Attr) {
    && at + Size(a) <= |b|
    && b[at..at + HEADER] == HeaderBytes(HEADER + |a.data|, a.kind)
    && b[at + HEADER..at + HEADER + |a.data|] == a.data
  }

  /** From `at` to `end` lie exactly these attributes, back to back. */
  predicate Holds(b: seq<u8>, at: nat, end: nat, attrs: seq<Attr>)
    decreases |attrs|
  {
    if attrs == [] then at == end
    else Starts(b, at, attrs[0]) && Holds(b, at + Size(attrs[0]), end, attrs[1..])
  }

  // ---------------------------------------------------------------- appending

  /** Attributes depend only on the bytes before their end. */
  lemma {:induction false} HoldsStays(b: seq<u8>, c: seq<u8>, at: nat, end: nat, attrs: seq<Attr>)
    requires Holds(b, at, end, attrs) && end <= |b| && end <= |c| && b[..end] == c[..end]
    ensures Holds(c, at, end, attrs) && at <= end
    decreases |attrs|
  {
    if attrs != [] {
      var a := attrs[0];
      HoldsStays(b, c, at + Size(a), end, attrs[1..]);
      SlicesAgree(b, c, end, at, at + HEADER);
      SlicesAgree(b, c, end, at + HEADER, at + HEADER + |a.data|);
    }
  }

  lemma SlicesAgree(b: seq<u8>, c: seq<u8>, end: nat, i: nat, j: nat)
    requires i <= j <= end <= |b| && end <= |c| && b[..end] == c[..end]
    ensures b[i..j] == c[i..j]
  {
    assert b[..end][i..j] == c[..end][i..j];
    assert b[..end][i..j] == b[i..j];
    assert c[..end][i..j] == c[i..j];
  }

  lemma {:induction false} HoldsAppend(b: seq<u8>, at: nat, end: nat, attrs: seq<Attr>, a: Attr)
    requires Holds(b, at, end, attrs) && Starts(b, end, a)
    ensures Holds(b, at, end + Size(a), attrs + [a])
    decreases |attrs|
  {
    var all := attrs + [a];
    if attrs == [] {
      assert all[0] == a && all[1..] == [];
    } else {
      HoldsAppend(b, at + Size(attrs[0]), end, attrs[1..], a);
      assert all[0] == attrs[0] && all[1..] == attrs[1..] + [a];
    }
  }

  /** A netlink message under construction: its attributes lie from `start`, the aligned end of
      the fixed part, to `len`. */
  class Message {
    const buf: array<u8>
    const start: nat
    var len: nat
    ghost var attrs: seq<Attr>

    ghost predicate Valid()
      reads this, buf
    {
      && start <= len <= buf.Length && Align(len) == len
      && Holds(buf[..], start, len, attrs)
    }

    constructor (size: nat, start: nat)
      requires Align(start) == start <= size
      ensures Valid() && fresh(buf) && buf.Length == size && attrs == [] && this.start == start
    {
      buf := new u8[size](_ => 0);
      this.start, len, attrs := start, start, [];
    }

    /** The stores of getattr. */
    method Store(at: nat, a: Attr)
      requires at + Size(a) <= buf.Length
      modifies buf
      ensures Starts(buf[..], at, a)
      ensures buf[..at] == old(buf[..at])
      ensures buf[at + HEADER + |a.data|..] == old(buf[at + HEADER + |a.data|..])
    {
      var size := Cut(HEADER + |a.data|);
      buf[at], buf[at + 1] := Low(size), High(size);
      buf[at + 2], buf[at + 3] := Low(a.kind), High(a.kind);
      for i := 0 to |a.data|
        invariant buf[..at] == old(buf[..at])
        invariant buf[at..at + HEADER] == HeaderBytes(HEADER + |a.data|, a.kind)
        invariant buf[at + HEADER..at + HEADER + i] == a.data[..i]
        invariant buf[at + HEADER + i..] == old(buf[at + HEADER + i..])
      {
        buf[at + HEADER + i] := a.data[i];
      }
      assert buf[..][at..at + HEADER] == buf[at..at + HEADER];
      assert buf[..][at + HEADER..at + HEADER + |a.data|] == buf[at + HEADER..at + HEADER + |a.data|];
    }

    /** The attribute at the end, where there is room for it. */
    method AddAttr(a: Attr)
      requires Valid() && len + Size(a) <= buf.Length
      modifies this, buf
      ensures Valid() && attrs == old(attrs) + [a] && len == old(len) + Size(a)
      ensures buf[..old(len)] == old(buf[..len]) && buf[len..] == old(buf[..])[len..]
    {
      ghost var before := buf[..];
      var at := len;
      Store(at, a);
      assert buf[..][..at] == buf[..at] == before[..at];
      ghost var used := at + HEADER + |a.data|;
      assert buf[..][used..] == buf[used..] == before[used..];
      Appended(before, buf[..], start, at, attrs, a);
      len := at + Size(a);
      attrs := attrs + [a];
    }

    /** getattr: 0 and the attribute at the end, or -1 and nothing changed when it would pass
        `maxlen`. */
    method GetAttr(maxlen: nat, kind: u16, data: seq<u8>) returns (r: int)
      requires Valid() && maxlen <= buf.Length
      modifies this, buf
      ensures Valid()
      ensures r == if old(len) + Size(Attr(kind, data)) > maxlen then -1 else 0
      ensures r == -1 ==> len == old(len) && attrs == old(attrs) && buf[..] == old(buf[..])
      ensures r == 0 ==>
                && attrs == old(attrs) + [Attr(kind, data)]
                && len == old(len) + Size(Attr(kind, data)) <= maxlen
                && buf[..old(len)] == old(buf[..len])
                && buf[len..] == old(buf[..])[len..]
    {
      var a := Attr(kind, data);
      if Align(len) + Size(a) > maxlen {
        return -1;
      }
      AddAttr(a);
      r := 0;
    }
  }

  /** What the stores of getattr leave, in one step. */
  lemma Appended(before: seq<u8>, b: seq<u8>, start: nat, at: nat, attrs: seq<Attr>, a: Attr)
    requires start <= at && Align(at) == at && |before| == |b|
    requires Holds(before, start, at, attrs) && Starts(b, at, a) && b[..at] == before[..at]
    requires b[at + HEADER + |a.data|..] == before[at + HEADER + |a.data|..]
    ensures Holds(b, start, at + Size(a), attrs + [a])
    ensures Align(at + Size(a)) == at + Size(a)
    ensures b[at + Size(a)..] == before[at + Size(a)..]
  {
    HoldsStays(before, b, start, at, attrs);
    HoldsAppend(b, start, at, attrs, a);
    AlignTwice(at, HEADER + |a.data|);
    var used, size := HEADER + |a.data|, Size(a);
    assert b[at + size..] == b[at + used..][size - used..];
    assert before[at + size..] == before[at + used..][size - used..];
  }

  // ---------------------------------------------------------------- parsing

  /** RTA_OK: a whole header is left and its length lies between a header and what is left. */
  predicate RtaOk(b: seq<u8>, at: nat) {
    at + HEADER <= |b| && HEADER <= LoadLe(b, at) && at + LoadLe(b, at) <= |b|
  }

  /** RTA_NEXT. */
  function NextAt(b: seq<u8>, at: nat): (r: nat)
    requires RtaOk(b, at)
    ensures at + HEADER <= r
  {
    at + Align(LoadLe(b, at))
  }

  /** What the walk leaves unread; negative when the last padding passes the end. */
  function Deficit(b: seq<u8>, at: nat): int
    decreases |b| - at
  {
    if RtaOk(b, at) then Deficit(b, NextAt(b, at)) else |b| - at
  }

  /** Where the walk last meets a type, if it does. */
  function Met(b: seq<u8>, at: nat, kind: u16): Option<nat>
    decreases |b| - at
  {
    if !RtaOk(b, at) then None
    else
      var here := if LoadLe(b, at + 2) == kind then Some(at) else None;
      Later(Met(b, NextAt(b, at), kind), here)
  }

  function Later(a: Option<nat>, b: Option<nat>): Option<nat> {
    if a.Some? then a else b
  }

  /** parse_rtattr over any region, from `start` to the end of `buf`: `tb` gets, for each type up
      to `max`, where the walk last met it; `rest` is what the walk could not read. */
  method ParseRtattr(tb: array<Option<nat>>, max: nat, buf: seq<u8>, start: nat) returns (rest: int)
    requires tb.Length == max + 1 && start <= |buf|
    modifies tb
    ensures rest == Deficit(buf, start)
    ensures forall k: u16 :: k <= max ==> tb[k] == Met(buf, start, k)
  {
    for i := 0 to max + 1
      invariant forall j :: 0 <= j < i ==> tb[j] == None
    {
      tb[i] := None;
    }
    var rta := start;
    rest := |buf| - start;
    while rest >= HEADER && LoadLe(buf, rta) >= HEADER && LoadLe(buf, rta) <= rest
      invariant rest == |buf| - rta && Deficit(buf, rta) == Deficit(buf, start)
      invariant forall k: u16 :: k <= max ==> Met(buf, start, k) == Later(Met(buf, rta, k), tb[k])
      decreases rest
    {
      var kind := LoadLe(buf, rta + 2);
      if kind <= max {
        tb[kind] := Some(rta);
      }
      var size := Align(LoadLe(buf, rta));
      rta, rest := rta + size, rest - size;
    }
  }

  /** What RTA_OK and RTA_NEXT read off the first attribute. */
  lemma FirstHeader(b: seq<u8>, at: nat, a: Attr)
    requires Starts(b, at, a) && Fits(a)
    ensures RtaOk(b, at) && LoadLe(b, at + 2) == a.kind && NextAt(b, at) == at + Size(a)
  {}

  /** The place is that of the last attribute of its type, payload intact, or there is none. */
  ghost predicate Finds(b: seq<u8>, place: Option<nat>, attrs: seq<Attr>, kind: u16) {
    match place
    case None => forall i :: 0 <= i < |attrs| ==> attrs[i].kind != kind
    case Some(p) => exists i: nat :: IsLast(attrs, i, kind) && Starts(b, p, attrs[i])
  }

  /** The walk ends at a place with no whole header left, or a length below a header's or beyond
      what is left. */
  predicate Stops(b: seq<u8>, at: nat)
    requires at <= |b|
  {
    |b| - at < 4 || LoadLe(b, at) < 4 || LoadLe(b, at) > |b| - at
  }

  /** Attributes that fit are found by their last occurrence, up to where the walk must stop; what
      is behind is the deficit. */
  lemma {:induction false} ParseFindsAppended(b: seq<u8>, at: nat, end: nat, attrs: seq<Attr>, kind: u16)
    requires Holds(b, at, end, attrs) && end <= |b| && Stops(b, end)
    requires forall i :: 0 <= i < |attrs| ==> Fits(attrs[i])
    ensures Deficit(b, at) == |b| - end
    ensures Finds(b, Met(b, at, kind), attrs, kind)
    decreases |attrs|
  {
    if attrs != [] {
      FirstHeader(b, at, attrs[0]);
      var n, rest := NextAt(b, at), attrs[1..];
      ParseFindsAppended(b, n, end, rest, kind);
      if Met(b, n, kind).Some? {
        var i: nat :| IsLast(rest, i, kind) && Starts(b, Met(b, n, kind).value, rest[i]);
        IsLastBehind(attrs, i, kind);
      } else if attrs[0].kind == kind {
        assert forall j :: 0 < j < |attrs| ==> attrs[j] == rest[j - 1];
        assert IsLast(attrs, 0, kind);
      }
    }
  }

  /** Whatever sequence of getattr calls built a message, parse_rtattr over its attributes gives
      them back. */
  lemma MessageParsesBack(m: Message, kind: u16)
    requires m.Valid() && forall i :: 0 <= i < |m.attrs| ==> Fits(m.attrs[i])
    ensures Deficit(m.buf[..m.len], m.start) == 0
    ensures Finds(m.buf[..m.len], Met(m.buf[..m.len], m.start, kind), m.attrs, kind)
  {
    var b := m.buf[..m.len];
    assert m.buf[..][..m.len] == b[..m.len];
    HoldsStays(m.buf[..], b, m.start, m.len, m.attrs);
    ParseFindsAppended(b, m.start, m.len, m.attrs, kind);
  }

  ghost predicate IsLast(attrs: seq<Attr>, i: nat, kind: u16) {
    i < |attrs| && attrs[i].kind == kind && forall j :: i < j < |attrs| ==> attrs[j].kind != kind
  }

  lemma IsLastBehind(attrs: seq<Attr>, i: nat, kind: u16)
    requires attrs != [] && IsLast(attrs[1..], i, kind)
    ensures IsLast(attrs, i + 1, kind) && attrs[i + 1] == attrs[1..][i]
  {}

  /** The length field holds the attribute's length cut to 16 bits, so the right length exactly
      when the attribute fits. */
  lemma LengthFieldExact(b: seq<u8>, at: nat, a: Attr)
    requires Starts(b, at, a)
    ensures LoadLe(b, at) == (HEADER + |a.data|) % 0x1_0000
    ensures LoadLe(b, at) == HEADER + |a.data| <==> Fits(a)
  {
    CutIsModulo(HEADER + |a.data|);
  }

  /** An attribute octet by octet: length, type, both with the low octet first, then the payload,
      in a multiple of four octets. */
  lemma AttributeOctets(b: seq<u8>, at: nat, a: Attr)
    requires Starts(b, at, a)
    ensures var n, kind := 4 + |a.data|, a.kind;
            && Size(a) == (n + 3) / 4 * 4 && at + Size(a) <= |b|
            && b[at] == n % 0x1_0000 % 0x100 && b[at + 1] == n % 0x1_0000 / 0x100
            && b[at + 2] == kind % 0x100 && b[at + 3] == kind / 0x100
            && b[at + 4..at + n] == a.data
  {
    var h, n := b[at..at + HEADER], HEADER + |a.data|;
    AlignIsRoundingUp(n);
    CutIsModulo(n);
    assert b[at] == h[0] && b[at + 1] == h[1] && b[at + 2] == h[2] && b[at + 3] == h[3];
  }
}
