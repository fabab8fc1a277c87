/** The message log and the event log (common/log_body.c): a ring of numbered records, and the
    dump that writes them oldest first through a bounded buffer. */
module LogRing {
  import opened Words
  import opened LogFormat

  const MAX_MLOG := 256
  const MAX_ELOG := 2048
  const TMP_SIZE := 32 * 1024

  function Size(events: bool): (r: nat)
    ensures 0 < r < 0x1_0000
  {
    if events then MAX_ELOG else MAX_MLOG
  }

  /** What a caller logs. */
  datatype Entry = Entry(time: nat, data: Payload)

  const BLANK := Record(0, 0, Message(""))

  /** The sequence number of the n-th record: a 32-bit counter. */
  function Number(n: nat): u32 {
    if n == 0 then 0 else Inc(Number(n - 1))
  }

  /** The write position after n records in a ring of `size` cells. */
  function Slot(n: nat, size: nat): (r: nat)
    requires size > 0
    ensures r < size
  {
    if n == 0 then 0 else if Slot(n - 1, size) + 1 >= size then 0 else Slot(n - 1, size) + 1
  }

  lemma {:induction false} NumberExact(n: nat) returns (wraps: nat)
    ensures n == Number(n) + wraps * 0x1_0000_0000
  {
    wraps := 0;
    if n > 0 {
      wraps := NumberExact(n - 1);
      if Number(n - 1) == 0xffff_ffff {
        wraps := wraps + 1;
      }
    }
  }

  lemma NumberIsModulo(n: nat)
    ensures Number(n) == n % 0x1_0000_0000
  {
    var wraps := NumberExact(n);
  }

  /** The counter comes back to a value only after 2^32 records. */
  lemma NumbersDiffer(m: nat, n: nat)
    requires m < n < m + 0x1_0000_0000
    ensures Number(m) != Number(n)
  {
    var j := NumberExact(m);
    var k := NumberExact(n);
    WholeWraps(Number(m), Number(n), j, k);
  }

  lemma WholeWraps(a: u32, b: u32, j: nat, k: nat)
    requires 0 < b + k * 0x1_0000_0000 - (a + j * 0x1_0000_0000) < 0x1_0000_0000
    ensures a != b
  {}

  /** The position is the number of records modulo the ring's size. */
  lemma {:induction false} SlotSteps(n: nat, size: nat) returns (turns: nat)
    requires size > 0
    ensures n == turns * size + Slot(n, size)
  {
    turns := 0;
    if n > 0 {
      turns := SlotSteps(n - 1, size);
      if Slot(n - 1, size) + 1 >= size {
        assert n == (turns + 1) * size + Slot(n, size);
        turns := turns + 1;
      }
    }
  }

  /** Where the size divides 2^32, as 256 and 2048 do, the position is also the wrapped sequence
      number modulo the size. */
  lemma SlotIsNumberModulo(n: nat, size: nat, times: nat)
    requires size > 0 && times * size == 0x1_0000_0000
    ensures exists k: int :: Number(n) == k * size + Slot(n, size)
  {
    var wraps := NumberExact(n);
    var turns := SlotSteps(n, size);
    assert Number(n) == n - wraps * (times * size);
    assert wraps * (times * size) == (wraps * times) * size;
    assert Number(n) == (turns - wraps * times) * size + Slot(n, size);
  }

  /** The cells from the oldest to the newest after the entries were logged. */
  function Window(size: nat, log: seq<Entry>): (w: seq<Record>)
    requires size > 0
    ensures |w| == size
    decreases |log|
  {
    if log == [] then seq(size, _ => BLANK)
    else Window(size, log[..|log| - 1])[1..] + [Numbered(log, |log| - 1)]
  }

  function Numbered(log: seq<Entry>, i: nat): Record
    requires i < |log|
  {
    Record(Number(i + 1), log[i].time, log[i].data)
  }

  /** Each cell of the window: the last `size` entries in order, behind blanks while there are
      fewer. */
  lemma {:induction false} WindowAt(size: nat, log: seq<Entry>, j: nat)
    requires j < size
    ensures Window(size, log)[j]
         == if |log| + j < size then BLANK else Numbered(log, |log| + j - size)
    decreases |log|
  {
    if log != [] && j + 1 < size {
      WindowAt(size, log[..|log| - 1], j + 1);
    }
  }

  /** The newest record's number marks its cell alone, even when the counter has wrapped. */
  lemma NewestIsAlone(size: nat, log: seq<Entry>, j: nat)
    requires 0 < size < 0x1_0000_0000 && j + 1 < size && log != []
    ensures Window(size, log)[j].seqno != Number(|log|)
    ensures Window(size, log)[size - 1].seqno == Number(|log|)
  {
    WindowAt(size, log, j);
    WindowAt(size, log, size - 1);
    if |log| + j < size {
      NumbersDiffer(0, |log|);
    } else {
      NumbersDiffer(|log| + j - size + 1, |log|);
    }
  }

  // ---------------------------------------------------------------- what a dump says

  lemma {:induction false} FlatAppend(a: seq<string>, s: string)
    ensures Flat(a + [s]) == Flat(a) + s
  {
    if a == [] {
      assert a + [s] == [s];
    } else {
      assert (a + [s])[1..] == a[1..] + [s];
      FlatAppend(a[1..], s);
    }
  }

  /** How a record is printed: the pieces formatted one behind the other. */
  type Format = Record -> seq<string>

  /** The two dumps print alike but for the payload; `stamp` is get_time. */
  function Lines(stamp: nat -> string): Format {
    (r: Record) => Line(r, stamp(r.time))
  }

  /** Every valid record, printed with its end mark, fits the margin kept free in the buffer. */
  ghost predicate FitsMargin(f: Format, margin: nat, records: seq<Record>) {
    forall i :: 0 <= i < |records| && records[i].time != 0 ==> |Flat(f(records[i]))| < margin
  }

  /** The valid records printed in order. */
  function Printed(f: Format, records: seq<Record>): string {
    if records == [] then ""
    else (if records[0].time != 0 then Flat(f(records[0])) else "") + Printed(f, records[1..])
  }

  lemma {:induction false} PrintedAppend(f: Format, a: seq<Record>, b: seq<Record>)
    ensures Printed(f, a + b) == Printed(f, a) + Printed(f, b)
  {
    if a == [] {
      assert a + b == b;
    } else {
      assert (a + b)[1..] == a[1..] + b;
      PrintedAppend(f, a[1..], b);
    }
  }

  lemma PrintedSplit(f: Format, records: seq<Record>, k: nat)
    requires k <= |records|
    ensures Printed(f, records) == Printed(f, records[..k]) + Printed(f, records[k..])
  {
    assert records == records[..k] + records[k..];
    PrintedAppend(f, records[..k], records[k..]);
  }

  lemma {:induction false} PrintedBlank(f: Format, records: seq<Record>)
    requires forall i :: 0 <= i < |records| ==> records[i].time == 0
    ensures Printed(f, records) == ""
  {
    if records != [] {
      PrintedBlank(f, records[1..]);
    }
  }

  /** The last min(n, size) records, oldest first. */
  function LastRecords(size: nat, log: seq<Entry>): seq<Record> {
    var n := if |log| < size then |log| else size;
    seq(n, i requires 0 <= i < n => Numbered(log, |log| - n + i))
  }

  lemma WindowSplits(size: nat, log: seq<Entry>, blanks: nat)
    requires size > 0 && blanks == size - |LastRecords(size, log)|
    ensures Window(size, log)[blanks..] == LastRecords(size, log)
    ensures forall j :: 0 <= j < blanks ==> Window(size, log)[j] == BLANK
  {
    forall j: nat | j < size
      ensures Window(size, log)[j]
           == if j < blanks then BLANK else LastRecords(size, log)[j - blanks]
    {
      WindowAt(size, log, j);
    }
  }

  /** The window prints as exactly the last records. */
  lemma WindowPrints(f: Format, size: nat, log: seq<Entry>)
    requires size > 0
    ensures Printed(f, Window(size, log)) == Printed(f, LastRecords(size, log))
  {
    var w, k := Window(size, log), size - |LastRecords(size, log)|;
    WindowSplits(size, log, k);
    PrintedSplit(f, w, k);
    PrintedBlank(f, w[..k]);
  }

  /** Everything logged fits the fields of its records. */
  ghost predicate AllSized(log: seq<Entry>, events: bool) {
    forall i :: 0 <= i < |log| ==> Sized(log[i].data) && (log[i].data.Event? <==> events)
  }

  ghost predicate Stamps(stamp: nat -> string) {
    forall t :: |stamp(t)| <= STAMP_LEN
  }

  /** So everything in the ring is printed within the margin. */
  lemma CellsFit(cells: seq<Record>, pos: nat, log: seq<Entry>, events: bool, stamp: nat -> string)
    requires pos < |cells| && cells[pos..] + cells[..pos] == Window(|cells|, log)
    requires AllSized(log, events) && Stamps(stamp)
    ensures FitsMargin(Lines(stamp), Margin(events), cells)
  {
    forall j | 0 <= j < |cells| && cells[j].time != 0
      ensures |Flat(Lines(stamp)(cells[j]))| < Margin(events)
    {
      var k := if j >= pos then j - pos else |cells| - pos + j;
      assert cells[j] == Window(|cells|, log)[k];
      WindowAt(|cells|, log, k);
      RecordFits(cells[j], stamp(cells[j].time), events);
    }
  }

  lemma RecordFits(r: Record, stamp: string, events: bool)
    requires Sized(r.data) && (r.data.Event? <==> events) && |stamp| <= STAMP_LEN
    ensures |Flat(Line(r, stamp))| < Margin(events)
  {
    if events {
      EventFits(r, stamp);
    } else {
      MessageFits(r, stamp);
    }
  }

  // ---------------------------------------------------------------- the ring

  /** sprintf: the text and its end mark, which must fit. */
  method Sprintf(buff: array<char>, at: nat, text: string)
    requires at + |text| < buff.Length
    modifies buff
    ensures buff[..at] == old(buff[..at]) && buff[at..at + |text|] == text
    ensures buff[..at + |text|] == old(buff[..at]) + text && buff[at + |text|] == '\0'
  {
    for i := 0 to |text|
      invariant buff[..at] == old(buff[..at]) && buff[at..at + i] == text[..i]
    {
      buff[at + i] := text[i];
    }
    buff[at + |text|] := '\0';
    assert buff[..at + |text|] == buff[..at] + buff[at..at + |text|];
  }

  class Log {
    const ring: array<Record>
    /** Which of the two logs this is. */
    const events: bool
    var enabled: bool
    var pos: nat
    var seqno: u32
    ghost var log: seq<Entry>

    ghost predicate Valid()
      reads this, ring
    {
      && ring.Length == Size(events) && AllSized(log, events)
      && pos == Slot(|log|, ring.Length) && seqno == Number(|log|)
      && ring[pos..] + ring[..pos] == Window(ring.Length, log)
    }

    /** mlog_init and evtlog_init over cleared cells. */
    constructor (events: bool, enabled: bool)
      ensures Valid() && fresh(ring) && log == [] && ring.Length == if events then 2048 else 256
      ensures this.events == events && this.enabled == enabled
    {
      ring := new Record[Size(events)](_ => BLANK);
      this.events, this.enabled, pos, seqno, log := events, enabled, 0, 0, [];
      new;
      assert ring[pos..] + ring[..pos] == Window(ring.Length, []);
    }

    /** The stores both logs make. */
    method Append(time: nat, data: Payload)
      requires Valid() && Sized(data) && (data.Event? <==> events)
      modifies this, ring
      ensures Valid() && log == old(log) + [Entry(time, data)] && enabled == old(enabled)
    {
      ghost var w := Window(ring.Length, log);
      seqno := Inc(seqno);
      ring[pos] := Record(seqno, time, data);
      pos := pos + 1;
      if pos >= ring.Length {
        pos := 0;
      }
      log := log + [Entry(time, data)];
      assert log[..|log| - 1] == old(log);
      assert ring[pos..] + ring[..pos] == w[1..] + [Record(seqno, time, data)];
    }

    /** mlog: the formatted text, cut by vsnprintf to the field. */
    method Mlog(time: nat, text: string)
      requires Valid() && !events
      modifies this, ring
      ensures Valid() && enabled == old(enabled)
      ensures log == old(log) + [Entry(time, Message(if |text| < 112 then text else text[..111]))]
    {
      Append(time, Message(if |text| < MLOG_DATA_LEN then text else text[..MLOG_DATA_LEN - 1]));
    }

    /** evtlog: an event while tracing is on, nothing otherwise. */
    method Evtlog(time: nat, tid: string, info1: u32, info2: u32, bytes: seq<u8>)
      requires Valid() && events && |tid| <= 4 && |bytes| == ELOG_DATA_LEN
      modifies this, ring
      ensures Valid() && enabled == old(enabled)
      ensures log == if enabled then old(log) + [Entry(time, Event(tid, info1, info2, bytes))]
                     else old(log)
      ensures !enabled ==> ring[..] == old(ring[..])
    {
      if enabled {
        Append(time, Event(tid, info1, info2, bytes));
      }
    }

    /** The search for the newest record: where the dump starts. */
    method Oldest(cells: seq<Record>) returns (at: nat)
      requires Valid() && cells == ring[..]
      ensures at < |cells| && (log != [] ==> at == pos)
    {
      at := 0;
      var i := 0;
      while i < |cells|
        invariant at == i <= |cells|
        invariant forall j :: 0 <= j < i ==> cells[j].seqno != seqno
      {
        if cells[at].seqno == seqno {
          at := at + 1;
          if at > |cells| - 1 {
            at := 0;
          }
          NewestCell(cells, pos, log);
          return;
        }
        at, i := at + 1, i + 1;
      }
      NewestCell(cells, pos, log);
    }

    /** write_log_mlog and write_log_evtlog: the chunks written to the file make up the header and
        the last records oldest first, and no store passes the buffer's end. */
    method WriteLog(buff: array<char>, started: string, stamp: nat -> string)
      returns (chunks: seq<string>)
      requires Valid() && buff.Length == 0x8000 && Stamps(stamp) && |started| <= CTIME_LEN
      modifies buff
      ensures Flat(chunks) == "\n----------------\n" + (if events then "EVENTLOG:" else "MLOG:") + "\n" + started
                              + Printed(Lines(stamp), LastRecords(ring.Length, log))
      ensures forall i :: 0 <= i < |chunks| ==> |chunks[i]| < 0x8000
    {
      var cells := ring[..];
      var header := Heading(events, started);
      Sprintf(buff, 0, header);
      var at := Oldest(cells);
      CellsFit(cells, pos, log, events, stamp);
      ghost var order := cells[at..] + cells[..at];
      assert buff[..|header|] == header;
      chunks := WriteFrom(buff, |header|, Lines(stamp), Margin(events), cells, at, order);
      DumpOrder(Lines(stamp), cells, pos, at, log);
    }
  }

  /** The cells once around from `start`. */
  ghost predicate InOrder(order: seq<Record>, cells: seq<Record>, start: nat) {
    && |order| == |cells| && start < |cells|
    && forall i :: 0 <= i < |cells| ==>
         order[i] == cells[if start + i < |cells| then start + i else start + i - |cells|]
  }

  /** The valid cells in order, behind the header already in the buffer. */
  method WriteFrom(buff: array<char>, headerLength: nat, f: Format, margin: nat,
                   cells: seq<Record>, start: nat, ghost order: seq<Record>)
    returns (chunks: seq<string>)
    requires buff.Length == TMP_SIZE && InOrder(order, cells, start)
    requires 0 < margin && FitsMargin(f, margin, cells) && headerLength + margin <= TMP_SIZE
    modifies buff
    ensures Flat(chunks) == old(buff[..headerLength]) + Printed(f, order)
    ensures forall i :: 0 <= i < |chunks| ==> |chunks[i]| < TMP_SIZE
  {
    chunks := [];
    var tlen: nat := headerLength;
    var n, at := |cells|, start;
    ghost var header := buff[..headerLength];
    for i := 0 to n
      invariant at == if start + i < n then start + i else start + i - n
      invariant tlen + margin <= TMP_SIZE
      invariant Flat(chunks) + buff[..tlen] == header + Printed(f, order[..i])
      invariant forall j :: 0 <= j < |chunks| ==> |chunks[j]| < TMP_SIZE
    {
      PrintedNext(f, order, i);
      chunks, tlen := WriteCell(buff, chunks, tlen, cells[at], f, margin);
      at := at + 1;
      if at > n - 1 {
        at := 0;
      }
    }
    assert order[..n] == order;
    FlatAppend(chunks, buff[..tlen]);
    chunks := chunks + [buff[..tlen]];
  }

  /** A cell of the dump: printed if it was ever written. */
  method WriteCell(buff: array<char>, before: seq<string>, at: nat, r: Record, f: Format, margin: nat)
    returns (chunks: seq<string>, tlen: nat)
    requires buff.Length == TMP_SIZE && at + margin <= TMP_SIZE
    requires r.time != 0 ==> |Flat(f(r))| < margin
    requires forall j :: 0 <= j < |before| ==> |before[j]| < TMP_SIZE
    modifies buff
    ensures tlen + margin <= TMP_SIZE
    ensures Flat(chunks) + buff[..tlen]
         == old(Flat(before) + buff[..at]) + if r.time != 0 then Flat(f(r)) else ""
    ensures forall j :: 0 <= j < |chunks| ==> |chunks[j]| < TMP_SIZE
  {
    if r.time != 0 {
      chunks, tlen := WriteRecord(buff, before, at, f(r), margin);
    } else {
      chunks, tlen := before, at;
    }
  }

  /** From where the search ends, the ring prints as the last records. */
  lemma DumpOrder(f: Format, cells: seq<Record>, pos: nat, start: nat, log: seq<Entry>)
    requires pos < |cells| && cells[pos..] + cells[..pos] == Window(|cells|, log)
    requires start < |cells| && (log != [] ==> start == pos)
    ensures Printed(f, cells[start..] + cells[..start]) == Printed(f, LastRecords(|cells|, log))
  {
    WindowPrints(f, |cells|, log);
    if log == [] {
      var w := Window(|cells|, log);
      forall j | 0 <= j < |cells|
        ensures cells[j].time == 0
      {
        assert cells[j] == w[if j >= pos then j - pos else |cells| - pos + j];
      }
      PrintedBlank(f, cells[start..] + cells[..start]);
    }
  }

  lemma PrintedNext(f: Format, records: seq<Record>, i: nat)
    requires i < |records|
    ensures Printed(f, records[..i + 1])
         == Printed(f, records[..i]) + if records[i].time != 0 then Flat(f(records[i])) else ""
  {
    assert records[..i + 1] == records[..i] + [records[i]];
    PrintedAppend(f, records[..i], [records[i]]);
    assert Printed(f, []) == "";
  }

  /** One record behind the others, then WRITE_LOG_MIDDLE: hand the buffer to the file when less
      than the margin is left. */
  method WriteRecord(buff: array<char>, before: seq<string>, at: nat, pieces: seq<string>, margin: nat)
    returns (chunks: seq<string>, tlen: nat)
    requires buff.Length == TMP_SIZE && at + margin <= TMP_SIZE && |Flat(pieces)| < margin
    requires forall j :: 0 <= j < |before| ==> |before[j]| < TMP_SIZE
    modifies buff
    ensures tlen + margin <= TMP_SIZE
    ensures Flat(chunks) + buff[..tlen] == old(Flat(before) + buff[..at]) + Flat(pieces)
    ensures forall j :: 0 <= j < |chunks| ==> |chunks[j]| < TMP_SIZE
  {
    chunks := before;
    tlen := Pieces(buff, at, pieces);
    if tlen > TMP_SIZE - margin {
      FlatAppend(chunks, buff[..tlen]);
      chunks := chunks + [buff[..tlen]];
      tlen := 0;
    }
  }

  /** One record: each piece formatted behind the last one. */
  method Pieces(buff: array<char>, at: nat, pieces: seq<string>) returns (tlen: nat)
    requires at + |Flat(pieces)| < buff.Length
    modifies buff
    ensures tlen == at + |Flat(pieces)| && buff[..tlen] == old(buff[..at]) + Flat(pieces)
  {
    tlen := at;
    for i := 0 to |pieces|
      invariant at <= tlen && tlen + |Flat(pieces[i..])| == at + |Flat(pieces)|
      invariant buff[..tlen] + Flat(pieces[i..]) == old(buff[..at]) + Flat(pieces)
    {
      Sprintf(buff, tlen, pieces[i]);
      tlen := tlen + |pieces[i]|;
    }
  }

  /** In a ring that holds the window, the newest number is found just before the position. */
  lemma {:induction false} NewestCell(cells: seq<Record>, pos: nat, log: seq<Entry>)
    requires 0 < |cells| < 0x1_0000 && pos < |cells|
    requires cells[pos..] + cells[..pos] == Window(|cells|, log)
    ensures exists j :: 0 <= j < |cells| && cells[j].seqno == Number(|log|)
    ensures log != [] ==> forall j :: 0 <= j < |cells| && cells[j].seqno == Number(|log|)
                            ==> pos == if j + 1 == |cells| then 0 else j + 1
  {
    var n, w := |cells|, Window(|cells|, log);
    if log == [] {
      assert cells[pos] == w[0];
    } else {
      var newest := if pos == 0 then n - 1 else pos - 1;
      assert cells[newest] == w[n - 1];
      WindowAt(n, log, n - 1);
      forall j | 0 <= j < n && j != newest
        ensures cells[j].seqno != Number(|log|)
      {
        var k := if j >= pos then j - pos else n - pos + j;
        assert cells[j] == w[k];
        NewestIsAlone(n, log, k);
      }
    }
  }
}
