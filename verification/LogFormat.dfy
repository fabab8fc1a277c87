/** How the two logs print a record, and that what they print fits the margin their dump keeps
    free (common/log_body.c write_log_mlog and write_log_evtlog, common/log.h). */
module LogFormat {
  import opened Words

  const MLOG_DATA_LEN := 112
  const ELOG_DATA_LEN := 56
  const MLOG_MARGIN := 256
  const ELOG_MARGIN := ELOG_DATA_LEN * 3 + 128

  /** What get_time writes: "%d-%02d-%02d %02d:%02d:%02d.%03d" for a year of four digits. */
  const STAMP_LEN := 23

  /** What ctime_r writes for such a year, line break included. */
  const CTIME_LEN := 25

  /** A message, or an event with its trace id up to the end mark. */
  datatype Payload =
    | Message(text: string)
    | Event(tid: string, info1: nat, info2: nat, bytes: seq<u8>)

  /** A cell; time 0 marks one never written. */
  datatype Record = Record(seqno: u32, time: nat, data: Payload)

  /** What the fixed fields of a record can hold, with unsigned long as wide as on ia32. */
  predicate Sized(p: Payload) {
    match p
    case Message(text) => |text| < MLOG_DATA_LEN
    case Event(tid, info1, info2, bytes) =>
      |tid| <= 4 && info1 < 0x1_0000_0000 && info2 < 0x1_0000_0000 && |bytes| == ELOG_DATA_LEN
  }

  function Margin(events: bool): nat {
    if events then ELOG_MARGIN else MLOG_MARGIN
  }

  // ---------------------------------------------------------------- what is printed

  function Digit(d: nat): char
    requires d < 16
  {
    "0123456789abcdef"[d]
  }

  /** `%u` */
  function Decimal(n: nat): string {
    if n < 10 then [Digit(n)] else Decimal(n / 10) + [Digit(n % 10)]
  }

  /** `%lx` */
  function Hex(n: nat): string {
    if n < 16 then [Digit(n)] else Hex(n / 16) + [Digit(n % 16)]
  }

  /** ` %02x` for each byte. */
  function HexBytes(b: seq<u8>): string {
    if b == [] then "" else [' ', Digit(b[0] / 16), Digit(b[0] % 16)] + HexBytes(b[1..])
  }

  /** The bytes, eight to a line. */
  function HexLines(b: seq<u8>): seq<string> {
    if |b| < 8 then [] else ["    " + (HexBytes(b[..8]) + "\n")] + HexLines(b[8..])
  }

  function EventHead(seqno: nat, tid: string, stamp: string, info1: nat, info2: nat): string {
    "\nseq :" + (Decimal(seqno) + "\n" + ("tid :" + tid + "\n" + ("time:" + stamp + "\n" +
      ("data:" + (Hex(info1) + "/" + (Hex(info2) + "\n"))))))
  }

  /** What heads a dump; `started` is the start time as ctime_r prints it. */
  function Heading(events: bool, started: string): string {
    "\n----------------\n" + (if events then "EVENTLOG:" else "MLOG:") + "\n" + started
  }

  /** The pieces of a record, each the work of one sprintf; `stamp` is its time as printed. */
  function Line(r: Record, stamp: string): seq<string> {
    match r.data
    case Message(text) => ["\nseq :" + Decimal(r.seqno) + "\ntime:" + stamp + "\nmsg :" + text + "\n"]
    case Event(tid, info1, info2, bytes) =>
      [EventHead(r.seqno, tid, stamp, info1, info2)] + HexLines(bytes)
  }

  function Flat(parts: seq<string>): string {
    if parts == [] then "" else parts[0] + Flat(parts[1..])
  }

  // ---------------------------------------------------------------- how long it is

  function Pow10(k: nat): nat {
    if k == 0 then 1 else 10 * Pow10(k - 1)
  }

  function Pow16(k: nat): (r: nat)
    ensures r > 0
  {
    if k == 0 then 1 else 16 * Pow16(k - 1)
  }

  lemma {:induction false} DecimalLength(n: nat, k: nat)
    requires k > 0 && n < Pow10(k)
    ensures 0 < |Decimal(n)| <= k
  {
    if n >= 10 {
      DecimalLength(n / 10, k - 1);
    }
  }

  /** Exactly: a number needs more than k hexadecimal digits when it is 16 to the k or more. */
  lemma {:induction false} HexLength(n: nat, k: nat)
    requires k > 0
    ensures |Hex(n)| > 0 && (|Hex(n)| <= k <==> n < Pow16(k))
  {
    assert Pow16(1) == 16;
    if n >= 16 {
      var q := n / 16;
      assert 16 * q <= n < 16 * q + 16;
      HexLength(q, if k > 1 then k - 1 else 1);
    }
  }

  lemma {:induction false} HexBytesLength(b: seq<u8>)
    ensures |HexBytes(b)| == 3 * |b|
  {
    if b != [] {
      HexBytesLength(b[1..]);
    }
  }

  lemma {:induction false} HexLinesLength(b: seq<u8>, lines: nat)
    requires |b| == 8 * lines
    ensures |Flat(HexLines(b))| == 29 * lines
  {
    if lines > 0 {
      HexBytesLength(b[..8]);
      HexLinesLength(b[8..], lines - 1);
      var first := "    " + (HexBytes(b[..8]) + "\n");
      assert HexLines(b) == [first] + HexLines(b[8..]);
      assert ([first] + HexLines(b[8..]))[1..] == HexLines(b[8..]);
    }
  }

  lemma WidthOfWords()
    ensures Pow10(10) == 10_000_000_000 && Pow16(8) == 0x1_0000_0000 && Pow16(15) == 0x1000_0000_0000_0000
  {
    assert Pow10(5) == 100_000;
    assert Pow16(4) == 0x1_0000;
    assert Pow16(12) == 0x1_0000 * Pow16(8);
  }

  /** An event record fits its margin exactly when its five variable fields leave room; on ia32
      they always do. */
  lemma EventFits(r: Record, stamp: string)
    requires r.data.Event? && |r.data.bytes| == ELOG_DATA_LEN
    ensures |Flat(Line(r, stamp))| < ELOG_MARGIN <==>
              |Decimal(r.seqno)| + |r.data.tid| + |stamp| + |Hex(r.data.info1)| + |Hex(r.data.info2)| < 67
    ensures Sized(r.data) && |stamp| <= STAMP_LEN ==> |Flat(Line(r, stamp))| < ELOG_MARGIN
  {
    HexLinesLength(r.data.bytes, 7);
    HeadAndLines(r, stamp);
    WidthOfWords();
    DecimalLength(r.seqno, 10);
    HexLength(r.data.info1, 8);
    HexLength(r.data.info2, 8);
  }

  lemma MessageFits(r: Record, stamp: string)
    requires r.data.Message? && Sized(r.data) && |stamp| <= STAMP_LEN
    ensures |Flat(Line(r, stamp))| < 256 == MLOG_MARGIN
  {
    var head := "\nseq :" + Decimal(r.seqno) + "\ntime:" + stamp + "\nmsg :" + r.data.text + "\n";
    assert Line(r, stamp) == [head] && Line(r, stamp)[1..] == [];
    WidthOfWords();
    DecimalLength(r.seqno, 10);
  }

  /** With longs of 64 bits the largest event is two characters too long for its margin. */
  lemma WideEventOverruns(r: Record, stamp: string)
    requires r.data.Event? && |r.data.bytes| == ELOG_DATA_LEN && |r.data.tid| == 4
    requires |stamp| == STAMP_LEN && |Decimal(r.seqno)| == 10
    requires r.data.info1 >= 0x1000_0000_0000_0000 && r.data.info2 >= 0x1000_0000_0000_0000
    ensures |Flat(Line(r, stamp))| >= ELOG_MARGIN
  {
    WidthOfWords();
    HexLength(r.data.info1, 15);
    HexLength(r.data.info2, 15);
    EventFits(r, stamp);
  }

  // ---------------------------------------------------------------- what it tells

  /** The value of a hexadecimal or decimal digit. */
  function DigitValue(c: char): nat {
    if '0' <= c <= '9' then c as nat - '0' as nat
    else if 'a' <= c <= 'f' then c as nat - 'a' as nat + 10
    else 0
  }

  function Value(s: string, base: nat): nat {
    if s == "" then 0 else Value(s[..|s| - 1], base) * base + DigitValue(s[|s| - 1])
  }

  lemma DigitTells(d: nat)
    requires d < 16
    ensures DigitValue(Digit(d)) == d && Digit(d) != '\n' && Digit(d) != '/' && Digit(d) != ' '
    ensures Digit(d) == '0' ==> d == 0
    ensures IsHexDigit(Digit(d))
  {}

  /** A printed decimal number reads as that number, in decimal digits without leading zeros. */
  lemma {:induction false} DecimalTells(n: nat)
    ensures Value(Decimal(n), 10) == n && |Decimal(n)| > 0
    ensures forall i :: 0 <= i < |Decimal(n)| ==> '0' <= Decimal(n)[i] <= '9'
    ensures n > 0 ==> Decimal(n)[0] != '0'
  {
    DigitTells(n % 10);
    if n >= 10 {
      DecimalTells(n / 10);
      var s := Decimal(n / 10);
      assert (s + [Digit(n % 10)])[..|s|] == s;
    } else {
      assert Decimal(n)[..0] == "";
    }
  }

  /** A printed hexadecimal number reads as that number. */
  lemma {:induction false} HexTells(n: nat)
    ensures Value(Hex(n), 16) == n
  {
    DigitTells(n % 16);
    if n >= 16 {
      HexTells(n / 16);
      var s := Hex(n / 16);
      assert (s + [Digit(n % 16)])[..|s|] == s;
    } else {
      assert Hex(n)[..0] == "";
    }
  }

  predicate IsHexDigit(c: char) {
    '0' <= c <= '9' || 'a' <= c <= 'f'
  }

  lemma {:induction false} HexDigits(n: nat)
    ensures |Hex(n)| > 0 && (n > 0 ==> Hex(n)[0] != '0')
    ensures forall i :: 0 <= i < |Hex(n)| ==> IsHexDigit(Hex(n)[i])
  {
    DigitTells(n % 16);
    if n >= 16 {
      HexDigits(n / 16);
    }
  }

  /** Each byte of an event is printed as a blank and its two digits. */
  lemma {:induction false} HexBytesTell(b: seq<u8>, i: nat)
    requires i < |b|
    ensures |HexBytes(b)| == 3 * |b| && HexBytes(b)[3 * i] == ' '
    ensures DigitValue(HexBytes(b)[3 * i + 1]) * 16 + DigitValue(HexBytes(b)[3 * i + 2]) == b[i]
  {
    HexBytesLength(b);
    DigitTells(b[0] / 16);
    DigitTells(b[0] % 16);
    if i > 0 {
      HexBytesTell(b[1..], i - 1);
      var head := [' ', Digit(b[0] / 16), Digit(b[0] % 16)];
      assert HexBytes(b) == head + HexBytes(b[1..]);
    }
  }

  /** A text in front of the first mark tells itself apart from what follows. */
  lemma {:induction false} CutAt(a: string, b: string, x: string, y: string, mark: char)
    requires mark !in a && mark !in b && a + [mark] + x == b + [mark] + y
    ensures a == b && x == y
  {
    var s, t := a + [mark] + x, b + [mark] + y;
    assert s[0] == if a == "" then mark else a[0];
    assert t[0] == if b == "" then mark else b[0];
    if a != "" && b != "" {
      assert s[1..] == a[1..] + [mark] + x && t[1..] == b[1..] + [mark] + y;
      CutAt(a[1..], b[1..], x, y, mark);
    } else {
      assert s[1..] == t[1..];
    }
  }

  function MessageText(seqno: nat, stamp: string, text: string): string {
    "\nseq :" + (Decimal(seqno) + "\n" + ("time:" + stamp + "\n" + ("msg :" + text + "\n")))
  }

  /** Nothing is lost in print: two messages that print alike have the same number, time stamp and
      text. */
  lemma MessagesTellApart(r: Record, s: Record, stamp: string, stamp': string)
    requires r.data.Message? && s.data.Message? && '\n' !in stamp && '\n' !in stamp'
    requires Flat(Line(r, stamp)) == Flat(Line(s, stamp'))
    ensures r.seqno == s.seqno && stamp == stamp' && r.data.text == s.data.text
  {
    MessageIs(r, stamp);
    MessageIs(s, stamp');
    var a, b := Decimal(r.seqno), Decimal(s.seqno);
    var x, y := "time:" + stamp + "\n" + ("msg :" + r.data.text + "\n"),
                "time:" + stamp' + "\n" + ("msg :" + s.data.text + "\n");
    Behind("\nseq :", a + "\n" + x, b + "\n" + y);
    DecimalTells(r.seqno);
    DecimalTells(s.seqno);
    CutAt(a, b, x, y, '\n');
    TailsTellApart(stamp, stamp', r.data.text, s.data.text);
  }

  lemma TailsTellApart(stamp: string, stamp': string, text: string, text': string)
    requires '\n' !in stamp && '\n' !in stamp'
    requires "time:" + stamp + "\n" + ("msg :" + text + "\n")
          == "time:" + stamp' + "\n" + ("msg :" + text' + "\n")
    ensures stamp == stamp' && text == text'
  {
    CutAt("time:" + stamp, "time:" + stamp', "msg :" + text + "\n", "msg :" + text' + "\n", '\n');
    assert ("time:" + stamp)[5..] == stamp && ("time:" + stamp')[5..] == stamp';
    assert ("msg :" + text + "\n")[5..5 + |text|] == text;
    assert ("msg :" + text' + "\n")[5..5 + |text'|] == text';
  }

  lemma Behind(head: string, a: string, b: string)
    requires head + a == head + b
    ensures a == b
  {
    assert (head + a)[|head|..] == a && (head + b)[|head|..] == b;
  }

  lemma MessageIs(r: Record, stamp: string)
    requires r.data.Message?
    ensures Flat(Line(r, stamp)) == MessageText(r.seqno, stamp, r.data.text)
  {
    var head := "\nseq :" + Decimal(r.seqno) + "\ntime:" + stamp + "\nmsg :" + r.data.text + "\n";
    assert Line(r, stamp) == [head] && Line(r, stamp)[1..] == [];
    assert head == MessageText(r.seqno, stamp, r.data.text);
  }

  function EventText(seqno: nat, tid: string, stamp: string, info1: nat, info2: nat, bytes: string): string {
    "\nseq :" + (Decimal(seqno) + "\n" + ("tid :" + tid + "\n" + ("time:" + stamp + "\n" +
      ("data:" + (Hex(info1) + "/" + (Hex(info2) + "\n" + bytes))))))
  }

  lemma EventIs(r: Record, stamp: string)
    requires r.data.Event?
    ensures Flat(Line(r, stamp)) == EventText(r.seqno, r.data.tid, stamp, r.data.info1, r.data.info2,
                                              Flat(HexLines(r.data.bytes)))
  {
    var d, x := r.data, Flat(HexLines(r.data.bytes));
    var s1 := Hex(d.info2) + "\n";
    var s2 := Hex(d.info1) + "/" + s1;
    var s3 := "data:" + s2;
    var s4 := "time:" + stamp + "\n" + s3;
    var s5 := "tid :" + d.tid + "\n" + s4;
    var s6 := Decimal(r.seqno) + "\n" + s5;
    Regroup("\nseq :", s6, x);
    Regroup(Decimal(r.seqno) + "\n", s5, x);
    Regroup("tid :" + d.tid + "\n", s4, x);
    Regroup("time:" + stamp + "\n", s3, x);
    Regroup("data:", s2, x);
    Regroup(Hex(d.info1) + "/", s1, x);
    HeadAndLines(r, stamp);
  }

  lemma Regroup(a: string, b: string, c: string)
    ensures a + b + c == a + (b + c)
  {}

  lemma HeadAndLines(r: Record, stamp: string)
    requires r.data.Event?
    ensures Flat(Line(r, stamp))
         == EventHead(r.seqno, r.data.tid, stamp, r.data.info1, r.data.info2) + Flat(HexLines(r.data.bytes))
  {
    var head := EventHead(r.seqno, r.data.tid, stamp, r.data.info1, r.data.info2);
    assert Line(r, stamp) == [head] + HexLines(r.data.bytes);
    assert Line(r, stamp)[1..] == HexLines(r.data.bytes);
  }

  lemma {:induction false} HexBytesTellApart(b: seq<u8>, c: seq<u8>)
    requires HexBytes(b) == HexBytes(c)
    ensures b == c
  {
    HexBytesLength(b);
    HexBytesLength(c);
    forall i | 0 <= i < |b|
      ensures b[i] == c[i]
    {
      HexBytesTell(b, i);
      HexBytesTell(c, i);
    }
  }

  lemma {:induction false} HexLinesTellApart(b: seq<u8>, c: seq<u8>, lines: nat)
    requires |b| == |c| == 8 * lines && Flat(HexLines(b)) == Flat(HexLines(c))
    ensures b == c
  {
    if lines > 0 {
      var x, y := "    " + (HexBytes(b[..8]) + "\n"), "    " + (HexBytes(c[..8]) + "\n");
      FirstLine(b);
      FirstLine(c);
      HexBytesLength(b[..8]);
      HexBytesLength(c[..8]);
      assert Flat(HexLines(b))[..29] == x && Flat(HexLines(b))[29..] == Flat(HexLines(b[8..]));
      assert Flat(HexLines(c))[..29] == y && Flat(HexLines(c))[29..] == Flat(HexLines(c[8..]));
      assert x[4..28] == HexBytes(b[..8]) && y[4..28] == HexBytes(c[..8]);
      HexBytesTellApart(b[..8], c[..8]);
      HexLinesTellApart(b[8..], c[8..], lines - 1);
      assert b == b[..8] + b[8..] && c == c[..8] + c[8..];
    }
  }

  lemma FirstLine(b: seq<u8>)
    requires |b| >= 8
    ensures Flat(HexLines(b)) == "    " + (HexBytes(b[..8]) + "\n") + Flat(HexLines(b[8..]))
  {
    var first := "    " + (HexBytes(b[..8]) + "\n");
    assert HexLines(b) == [first] + HexLines(b[8..]);
    assert ([first] + HexLines(b[8..]))[1..] == HexLines(b[8..]);
  }

  /** The same for events: number, trace id, time stamp, both words and all bytes. */
  lemma EventsTellApart(r: Record, s: Record, stamp: string, stamp': string)
    requires r.data.Event? && s.data.Event? && '\n' !in stamp && '\n' !in stamp'
    requires '\n' !in r.data.tid && '\n' !in s.data.tid && |r.data.bytes| == |s.data.bytes| == ELOG_DATA_LEN
    requires Flat(Line(r, stamp)) == Flat(Line(s, stamp'))
    ensures r.seqno == s.seqno && stamp == stamp' && r.data == s.data
  {
    EventIs(r, stamp);
    EventIs(s, stamp');
    var d, e := r.data, s.data;
    var x, y := Flat(HexLines(d.bytes)), Flat(HexLines(e.bytes));
    var x1 := Hex(d.info1) + "/" + (Hex(d.info2) + "\n" + x);
    var y1 := Hex(e.info1) + "/" + (Hex(e.info2) + "\n" + y);
    var x2, y2 := "time:" + stamp + "\n" + ("data:" + x1), "time:" + stamp' + "\n" + ("data:" + y1);
    var x3, y3 := "tid :" + d.tid + "\n" + x2, "tid :" + e.tid + "\n" + y2;
    Behind("\nseq :", Decimal(r.seqno) + "\n" + x3, Decimal(s.seqno) + "\n" + y3);
    NumbersTellApart(r.seqno, s.seqno, x3, y3);
    CutAt("tid :" + d.tid, "tid :" + e.tid, x2, y2, '\n');
    Behind("tid :", d.tid, e.tid);
    CutAt("time:" + stamp, "time:" + stamp', "data:" + x1, "data:" + y1, '\n');
    Behind("time:", stamp, stamp');
    Behind("data:", x1, y1);
    WordsTellApart(d.info1, e.info1, Hex(d.info2) + "\n" + x, Hex(e.info2) + "\n" + y, '/');
    WordsTellApart(d.info2, e.info2, x, y, '\n');
    HexLinesTellApart(d.bytes, e.bytes, 7);
  }

  lemma NumbersTellApart(m: nat, n: nat, x: string, y: string)
    requires Decimal(m) + "\n" + x == Decimal(n) + "\n" + y
    ensures m == n && x == y
  {
    DecimalTells(m);
    DecimalTells(n);
    CutAt(Decimal(m), Decimal(n), x, y, '\n');
  }

  lemma WordsTellApart(m: nat, n: nat, x: string, y: string, mark: char)
    requires Hex(m) + [mark] + x == Hex(n) + [mark] + y && (mark == '/' || mark == '\n')
    ensures m == n && x == y
  {
    HexTells(m);
    HexTells(n);
    HexDigits(m);
    HexDigits(n);
    CutAt(Hex(m), Hex(n), x, y, mark);
  }
}
