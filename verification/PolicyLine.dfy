/** A line of the policy file (front/pol_tbl.c parse_policy_line and get_family): split in place
    into three parts, and kept in printed form by the rule it makes. */
module PolicyLine {
  import opened Words

  const MAX_PART := 3
  const PART_SIZE := 64

  /** AF_INET, AF_INET6 and AF_UNSPEC. */
  datatype Protocol = Inet | Inet6 | Unspec

  /** What a line comes to: the three texts handed on, or why it is ignored. */
  datatype Parsed =
    | Accepted(parts: seq<string>, family: Protocol)
    | UnknownFamily(part: string)
    | MixedFamilies(first: string, part: string)
    | Unavailable(family: Protocol)

  predicate IsBlank(c: char) { c == ' ' || c == '\t' }

  // ---------------------------------------------------------------- the meaning, on texts

  /** The text up to the first `c`, or all of it. */
  function Before(s: string, c: char): (r: string)
    ensures r <= s && c !in r
    ensures c !in s ==> r == s
  {
    if s == "" || s[0] == c then "" else [s[0]] + Before(s[1..], c)
  }

  /** The text behind the first `c`. */
  function Behind(s: string, c: char): string
    requires c in s
  {
    if s[0] == c then s[1..] else Behind(s[1..], c)
  }

  function SkipBlanks(s: string): string {
    if s != "" && IsBlank(s[0]) then SkipBlanks(s[1..]) else s
  }

  /** The text up to the first blank. */
  function Word(s: string): string {
    if s == "" || IsBlank(s[0]) then "" else [s[0]] + Word(s[1..])
  }

  function Part(s: string): string {
    Word(SkipBlanks(s))
  }

  /** The first n comma-separated parts, fewer when the commas run out. */
  function Parts(s: string, n: nat): seq<string>
    decreases n
  {
    if n == 0 then []
    else [Part(Before(s, ','))] + if ',' in s then Parts(Behind(s, ','), n - 1) else []
  }

  /** get_family's scan: digits and at most three dots. */
  function Scan(s: string, dots: nat): Protocol {
    if s == "" then Inet
    else if '0' <= s[0] <= '9' then Scan(s[1..], dots)
    else if s[0] == '.' && dots + 1 <= 3 then Scan(s[1..], dots + 1)
    else if s[0] == '\n' then Inet
    else Unspec
  }

  function FamilyOf(s: string): Protocol {
    if ':' in s then Inet6 else Scan(s, 0)
  }

  function Families(parts: seq<string>): (r: seq<Protocol>)
    ensures |r| == |parts| && forall i :: 0 <= i < |r| ==> r[i] == FamilyOf(parts[i])
  {
    seq(|parts|, i requires 0 <= i < |parts| => FamilyOf(parts[i]))
  }

  /** The first complaint about the parts and their families, from part `i` on. */
  function Complaint(parts: seq<string>, families: seq<Protocol>, i: nat): Option<Parsed>
    requires i <= |parts| == |families|
    decreases |parts| - i
  {
    if i == |parts| then None
    else if families[i] == Unspec then Some(UnknownFamily(parts[i]))
    else if families[0] != families[i] then Some(MixedFamilies(parts[0], parts[i]))
    else Complaint(parts, families, i + 1)
  }

  /** No complaint means one known family throughout. */
  lemma {:induction false} NoComplaint(parts: seq<string>, families: seq<Protocol>, i: nat)
    requires i <= |parts| == |families|
    ensures Complaint(parts, families, i) == None <==>
            forall j :: i <= j < |parts| ==> families[j] == families[0] != Unspec
    ensures Complaint(parts, families, i).Some? ==> !Complaint(parts, families, i).value.Accepted?
    decreases |parts| - i
  {
    if i < |parts| {
      NoComplaint(parts, families, i + 1);
    }
  }

  /** Parts without fault are passed over. */
  lemma {:induction false} ComplaintBehind(parts: seq<string>, families: seq<Protocol>, k: nat)
    requires k <= |parts| == |families|
    requires forall j :: 0 <= j < k ==> families[j] == families[0] != Unspec
    ensures Complaint(parts, families, 0) == Complaint(parts, families, k)
  {
    if k > 0 {
      ComplaintBehind(parts, families, k - 1);
    }
  }

  /** The families of the first parts, all known and the same. */
  ghost predicate Checked(families: seq<Protocol>, known: seq<Protocol>) {
    known <= families && forall j :: 0 <= j < |known| ==> known[j] == families[0] != Unspec
  }

  lemma CheckNext(all: seq<string>, families: seq<Protocol>, known: seq<Protocol>)
    requires |all| == |families| && Checked(families, known) && |known| < |all|
    ensures var k, f := |known|, families[|known|];
            if f == Unspec then Complaint(all, families, 0) == Some(UnknownFamily(all[k]))
            else if k > 0 && known[0] != f then
              Complaint(all, families, 0) == Some(MixedFamilies(all[0], all[k]))
            else Checked(families, known + [f])
  {
    ComplaintBehind(all, families, |known|);
  }

  predicate Available(p: Protocol, v4: bool, v6: bool) {
    (p == Inet ==> v4) && (p == Inet6 ==> v6)
  }

  /** Parts the line does not have are empty texts. */
  function Padded(parts: seq<string>): (r: seq<string>)
    requires |parts| <= MAX_PART
    ensures |r| == MAX_PART && parts <= r
  {
    parts + seq(MAX_PART - |parts|, _ => "")
  }

  lemma {:induction false} PartsCount(s: string, n: nat)
    ensures |Parts(s, n)| <= n && (n > 0 ==> |Parts(s, n)| > 0)
    decreases n
  {
    if n > 0 && ',' in s {
      PartsCount(Behind(s, ','), n - 1);
    }
  }

  function Judge(parts: seq<string>, v4: bool, v6: bool): Parsed
    requires 0 < |parts| <= MAX_PART
  {
    var families := Families(parts);
    match Complaint(parts, families, 0)
    case Some(c) => c
    case None =>
      if Available(families[0], v4, v6) then Accepted(Padded(parts), families[0])
      else Unavailable(families[0])
  }

  function Parse(s: string, v4: bool, v6: bool): Parsed {
    Judge(PartsOf(s), v4, v6)
  }

  /** The parts a line is split into. */
  function PartsOf(s: string): (parts: seq<string>)
    ensures 0 < |parts| <= MAX_PART
  {
    PartsCount(Before(s, '\n'), MAX_PART);
    Parts(Before(s, '\n'), MAX_PART)
  }

  /** Which flag opens which family: a line whose parts are all IPv4 is accepted exactly when the
      first is set, one whose parts are all IPv6 when the second is, and nothing else is turned
      down for that reason. */
  lemma FlagsDecide(s: string, v4: bool, v6: bool)
    ensures (forall i :: 0 <= i < |PartsOf(s)| ==> FamilyOf(PartsOf(s)[i]) == Inet) ==>
              if v4 then Parse(s, v4, v6) == Accepted(Padded(PartsOf(s)), Inet)
              else Parse(s, v4, v6) == Unavailable(Inet)
    ensures (forall i :: 0 <= i < |PartsOf(s)| ==> FamilyOf(PartsOf(s)[i]) == Inet6) ==>
              if v6 then Parse(s, v4, v6) == Accepted(Padded(PartsOf(s)), Inet6)
              else Parse(s, v4, v6) == Unavailable(Inet6)
  {
    NoComplaint(PartsOf(s), Families(PartsOf(s)), 0);
  }

  lemma UnavailableOnly(s: string, v4: bool, v6: bool)
    requires Parse(s, v4, v6).Unavailable?
    ensures var p := Parse(s, v4, v6).family;
            && ((p == Inet && !v4) || (p == Inet6 && !v6))
            && forall i :: 0 <= i < |PartsOf(s)| ==> FamilyOf(PartsOf(s)[i]) == p
  {
    NoComplaint(PartsOf(s), Families(PartsOf(s)), 0);
    assert Families(PartsOf(s))[0] == FamilyOf(PartsOf(s)[0]);
    UnspecComplains(PartsOf(s), Families(PartsOf(s)), 0);
  }

  lemma {:induction false} UnspecComplains(parts: seq<string>, families: seq<Protocol>, i: nat)
    requires i <= |parts| == |families|
    ensures Complaint(parts, families, i).Some? ==> !Complaint(parts, families, i).value.Unavailable?
    decreases |parts| - i
  {
    if i < |parts| {
      UnspecComplains(parts, families, i + 1);
    }
  }

  /** A line ends at its first line break, if it has one. */
  lemma LineEndsAtBreak(s: string, rest: string, v4: bool, v6: bool)
    requires '\n' !in s
    ensures Parse(s + "\n" + rest, v4, v6) == Parse(s, v4, v6)
  {
    var all := s + "\n" + rest;
    assert all[..|s|] == s && all[|s|] == '\n';
    SplitAt(all, '\n', |s|);
  }

  /** The line is turned down for the first part that is of no family or of another than the
      first part. */
  lemma FirstComplaint(s: string, v4: bool, v6: bool, k: nat)
    requires k < |PartsOf(s)|
    requires forall i :: 0 <= i < k ==> FamilyOf(PartsOf(s)[i]) == FamilyOf(PartsOf(s)[0]) != Unspec
    ensures FamilyOf(PartsOf(s)[k]) == Unspec ==> Parse(s, v4, v6) == UnknownFamily(PartsOf(s)[k])
    ensures FamilyOf(PartsOf(s)[k]) != Unspec && FamilyOf(PartsOf(s)[k]) != FamilyOf(PartsOf(s)[0]) ==>
              Parse(s, v4, v6) == MixedFamilies(PartsOf(s)[0], PartsOf(s)[k])
  {
    ComplaintBehind(PartsOf(s), Families(PartsOf(s)), k);
  }

  /** A part is the text between the spaces and tabs before it and the first one behind it. */
  lemma {:induction false} PartWithin(before: string, text: string, behind: string)
    requires forall i :: 0 <= i < |before| ==> before[i] == ' ' || before[i] == '\t'
    requires forall i :: 0 <= i < |text| ==> text[i] != ' ' && text[i] != '\t'
    requires behind != "" ==> behind[0] == ' ' || behind[0] == '\t'
    requires text == "" ==> behind == ""
    ensures Part(before + text + behind) == text
  {
    var s := before + text + behind;
    if before != "" {
      assert s[0] == before[0] && s[1..] == before[1..] + text + behind;
      PartWithin(before[1..], text, behind);
    } else {
      assert s == text + behind;
      WordWithin(text, behind);
      assert text != "" ==> s[0] == text[0];
    }
  }

  lemma {:induction false} WordWithin(text: string, behind: string)
    requires forall i :: 0 <= i < |text| ==> text[i] != ' ' && text[i] != '\t'
    requires behind != "" ==> behind[0] == ' ' || behind[0] == '\t'
    ensures Word(text + behind) == text
  {
    var s := text + behind;
    if text != "" {
      assert s[0] == text[0] && s[1..] == text[1..] + behind;
      WordWithin(text[1..], behind);
    } else {
      assert s == behind;
    }
  }

  // ---------------------------------------------------------------- get_family

  /** get_family. */
  method GetFamily(p: string) returns (r: Protocol)
    ensures r == FamilyOf(p)
  {
    if ':' in p {
      return Inet6;
    }
    var cp, i := 0, 0;
    while cp < |p|
      invariant cp <= |p| && Scan(p[cp..], i) == Scan(p, 0)
    {
      if !('0' <= p[cp] <= '9') {
        var dot := false;
        if p[cp] == '.' {
          i := i + 1;
          dot := i <= 3;
        }
        if !dot {
          return if p[cp] == '\n' then Inet else Unspec;
        }
      }
      assert p[cp..][1..] == p[cp + 1..];
      cp := cp + 1;
    }
    return Inet;
  }

  function Dots(s: string): nat {
    if s == "" then 0 else (if s[0] == '.' then 1 else 0) + Dots(s[1..])
  }

  /** Digits and dots only. */
  predicate IsDotted(s: string) {
    s == "" || ((s[0] == '.' || '0' <= s[0] <= '9') && IsDotted(s[1..]))
  }

  lemma {:induction false} DottedMeans(s: string)
    ensures IsDotted(s) <==> forall i :: 0 <= i < |s| ==> s[i] == '.' || '0' <= s[i] <= '9'
  {
    if s != "" {
      DottedMeans(s[1..]);
      assert forall i :: 0 <= i < |s| - 1 ==> s[1..][i] == s[i + 1];
      assert forall i :: 0 < i < |s| ==> s[i] == s[1..][i - 1];
    }
  }

  lemma DottedFirst(c: char, s: string)
    ensures IsDotted([c] + s) <==> (c == '.' || '0' <= c <= '9') && IsDotted(s)
    ensures Dots([c] + s) == (if c == '.' then 1 else 0) + Dots(s)
  {
    assert ([c] + s)[1..] == s;
  }

  /** What passes as IPv4: no colon, and up to a newline only digits and at most three dots. */
  lemma {:induction false} ScanAccepts(s: string, dots: nat)
    requires dots <= 3
    ensures Scan(s, dots) != Inet6
    ensures Scan(s, dots) == Inet <==> dots + Dots(Before(s, '\n')) <= 3 && IsDotted(Before(s, '\n'))
  {
    if s != "" && s[0] != '\n' {
      DottedFirst(s[0], Before(s[1..], '\n'));
      if s[0] == '.' {
        if dots < 3 {
          ScanAccepts(s[1..], dots + 1);
        }
      } else if '0' <= s[0] <= '9' {
        ScanAccepts(s[1..], dots);
      }
    }
  }

  // ---------------------------------------------------------------- splitting in place

  /** A C string: from `at` the text runs to its end mark at `end`. */
  ghost predicate Text(b: seq<char>, at: nat, end: nat) {
    at <= end < |b| && b[end] == '\0' && forall i :: at <= i < end ==> b[i] != '\0'
  }

  lemma {:induction false} SplitAt(s: string, c: char, k: nat)
    requires k < |s| && s[k] == c && c !in s[..k]
    ensures c in s && Before(s, c) == s[..k] && Behind(s, c) == s[k + 1..]
  {
    if k > 0 {
      assert s[..k][0] == s[0] && s[1..][..k - 1] == s[..k][1..];
      SplitAt(s[1..], c, k - 1);
      assert s[1..][k..] == s[k + 1..];
    }
  }

  /** strchr. */
  method Strchr(buff: array<char>, at: nat, ghost end: nat, c: char) returns (p: Option<nat>)
    requires Text(buff[..], at, end) && c != '\0'
    ensures match p
            case None => c !in buff[at..end]
            case Some(k) => at <= k < end && buff[k] == c && c !in buff[at..k]
  {
    var i := at;
    while buff[i] != '\0'
      invariant at <= i <= end && c !in buff[at..i]
      decreases end - i
    {
      if buff[i] == c {
        return Some(i);
      }
      i := i + 1;
    }
    return None;
  }

  /** The part at the front of a text, as a C string. */
  method CopyPart(buff: array<char>, at: nat, ghost end: nat, ip: array<char>) returns (n: nat)
    requires Text(buff[..], at, end) && buff != ip
    requires |Part(buff[at..end])| < ip.Length
    modifies ip
    ensures n < ip.Length && ip[..n] == Part(buff[at..end]) && ip[n] == '\0'
  {
    var dp := SkipSpace(buff, at, end);
    n := CopyWord(buff, dp, end, ip);
  }

  /** skip_space. */
  method SkipSpace(buff: array<char>, at: nat, ghost end: nat) returns (dp: nat)
    requires Text(buff[..], at, end)
    ensures at <= dp <= end && buff[dp..end] == SkipBlanks(buff[at..end])
  {
    dp := at;
    while IsBlank(buff[dp])
      invariant at <= dp <= end && SkipBlanks(buff[dp..end]) == SkipBlanks(buff[at..end])
      decreases end - dp
    {
      assert buff[dp..end][1..] == buff[dp + 1..end];
      dp := dp + 1;
    }
  }

  /** strlen. */
  method Strlen(buff: array<char>, at: nat, ghost end: nat) returns (l: nat)
    requires Text(buff[..], at, end)
    ensures at + l == end
  {
    l := 0;
    while buff[at + l] != '\0'
      invariant at + l <= end
      decreases end - at - l
    {
      l := l + 1;
    }
  }

  /** The copying loop. */
  method CopyWord(buff: array<char>, at: nat, ghost end: nat, ip: array<char>) returns (n: nat)
    requires Text(buff[..], at, end) && buff != ip
    requires |Word(buff[at..end])| < ip.Length
    modifies ip
    ensures n < ip.Length && ip[..n] == Word(buff[at..end]) && ip[n] == '\0'
  {
    var l := Strlen(buff, at, end);
    var dp := at;
    n := 0;
    while l > 0
      invariant at <= dp && dp + l == end
      invariant n + |Word(buff[dp..end])| < ip.Length
      invariant ip[..n] + Word(buff[dp..end]) == Word(buff[at..end])
    {
      if IsBlank(buff[dp]) {
        break;
      }
      assert buff[dp..end][1..] == buff[dp + 1..end];
      ip[n] := buff[dp];
      n, dp, l := n + 1, dp + 1, l - 1;
    }
    ip[n] := '\0';
  }

  /** While a line is split: the parts so far, and in the text at `at` the others. */
  ghost predicate Remaining(b: seq<char>, at: Option<nat>, end: nat, all: seq<string>, parts: seq<string>) {
    && parts <= all && |parts| <= MAX_PART
    && match at
       case None => all == parts
       case Some(p) => Text(b, p, end) && all[|parts|..] == Parts(b[p..end], MAX_PART - |parts|)
  }

  lemma RemainingShrinks(text: string, next: Option<string>, n: nat, all: seq<string>, parts: seq<string>)
    requires parts <= all && n > 0 && all[|parts|..] == Parts(text, n)
    requires next == if ',' in text then Some(Behind(text, ',')) else None
    ensures |parts| < |all| && all[|parts|] == Part(Before(text, ','))
    ensures parts + [all[|parts|]] <= all
    ensures all[|parts| + 1..] == if next.None? then [] else Parts(next.value, n - 1)
  {}

  /** One turn of the splitting loop: the comma becomes an end mark, the part is copied, and the
      next part starts behind the comma. */
  method NextPart(buff: array<char>, at: nat, ghost end: nat,
                  ghost all: seq<string>, ghost parts: seq<string>)
    returns (part: string, next: Option<nat>)
    requires Remaining(buff[..], Some(at), end, all, parts) && |parts| < MAX_PART
    requires |parts| < |all| ==> |all[|parts|]| < PART_SIZE
    modifies buff
    ensures |parts| < |all| && part == all[|parts|]
    ensures Remaining(buff[..], next, end, all, parts + [part])
  {
    ghost var s := buff[at..end];
    assert s == buff[..][at..end];
    RemainingShrinks(s, if ',' in s then Some(Behind(s, ',')) else None, MAX_PART - |parts|, all, parts);
    next := CutAtComma(buff, at, end);
    ghost var last := if next.Some? then next.value - 1 else end;
    part := CopyOut(buff, at, last);
    if next.Some? {
      assert buff[..][next.value..end] == buff[next.value..end];
    }
    RemainingNext(buff[..], next, end, all, parts, part);
  }

  lemma RemainingNext(b: seq<char>, next: Option<nat>, end: nat, all: seq<string>, parts: seq<string>,
                      part: string)
    requires |parts| < MAX_PART && parts + [part] <= all
    requires match next
             case None => all[|parts| + 1..] == []
             case Some(p) =>
               Text(b, p, end) && all[|parts| + 1..] == Parts(b[p..end], MAX_PART - |parts| - 1)
    ensures Remaining(b, next, end, all, parts + [part])
  {
    assert |parts + [part]| == |parts| + 1;
    if next.None? {
      assert all == parts + [part];
    }
  }

  /** The part copied to a buffer of its own, and read back. */
  method CopyOut(buff: array<char>, at: nat, ghost end: nat) returns (part: string)
    requires Text(buff[..], at, end) && |Part(buff[at..end])| < PART_SIZE
    ensures part == Part(buff[at..end])
  {
    var ip := new char[PART_SIZE];
    var n := CopyPart(buff, at, end, ip);
    part := ip[..n];
  }

  method CutAtComma(buff: array<char>, at: nat, ghost end: nat) returns (next: Option<nat>)
    requires Text(buff[..], at, end)
    modifies buff
    ensures match next
            case None => ',' !in old(buff[at..end]) && buff[..] == old(buff[..])
            case Some(p) =>
              && ',' in old(buff[at..end]) && p > 0 && Text(buff[..], at, p - 1)
              && buff[at..p - 1] == Before(old(buff[at..end]), ',')
              && Text(buff[..], p, end) && buff[p..end] == Behind(old(buff[at..end]), ',')
  {
    var comma := Strchr(buff, at, end, ',');
    next := None;
    if comma.Some? {
      SplitAt(buff[at..end], ',', comma.value - at);
      buff[comma.value] := '\0';
      next := Some(comma.value + 1);
    }
  }

  /** The line break becomes the end mark. */
  method DropNewline(buff: array<char>, ghost end: nat) returns (ghost stop: nat)
    requires Text(buff[..], 0, end)
    modifies buff
    ensures Text(buff[..], 0, stop) && buff[0..stop] == Before(old(buff[..end]), '\n')
  {
    stop := end;
    var dp := Strchr(buff, 0, end, '\n');
    if dp.Some? {
      SplitAt(buff[..end], '\n', dp.value);
      buff[dp.value] := '\0';
      stop := dp.value;
    }
    assert buff[0..stop] == old(buff[..stop]);
  }

  /** The parts that get copied, up to the first one complained about, fit the fixed buffers. */
  ghost predicate CopiedFit(parts: seq<string>, families: seq<Protocol>)
    requires |parts| == |families|
  {
    forall i :: 0 <= i < |parts| && Checked(families, families[..i]) ==> |parts[i]| < PART_SIZE
  }

  /** The next part and its family. */
  method TakePart(buff: array<char>, at: nat, ghost stop: nat, ghost all: seq<string>,
                  ghost families: seq<Protocol>, ghost parts: seq<string>, ghost family: seq<Protocol>)
    returns (part: string, f: Protocol, next: Option<nat>)
    requires Remaining(buff[..], Some(at), stop, all, parts) && |parts| < MAX_PART
    requires families == Families(all) && CopiedFit(all, families)
    requires |family| == |parts| && Checked(families, family)
    modifies buff
    ensures |parts| < |all| && part == all[|parts|] && f == families[|parts|]
    ensures Remaining(buff[..], next, stop, all, parts + [part])
  {
    assert family == families[..|parts|];
    part, next := NextPart(buff, at, stop, all, parts);
    f := GetFamily(part);
  }

  /** parse_policy_line up to the calls that make the server and the rule. */
  method ParsePolicyLine(buff: array<char>, ghost end: nat, v4: bool, v6: bool) returns (r: Parsed)
    requires Text(buff[..], 0, end)
    requires var parts := Parts(Before(buff[..end], '\n'), MAX_PART);
             CopiedFit(parts, Families(parts))
    modifies buff
    ensures r == Parse(old(buff[..end]), v4, v6)
  {
    ghost var line := Before(buff[..end], '\n');
    PartsCount(line, MAX_PART);
    ghost var all := Parts(line, MAX_PART);
    ghost var families := Families(all);
    ghost var stop := DropNewline(buff, end);
    assert buff[..][0..stop] == buff[0..stop];
    var parts: seq<string>, family: seq<Protocol>, at: Option<nat> := [], [], Some(0);
    while |parts| < MAX_PART && at.Some?
      invariant |family| == |parts|
      invariant Remaining(buff[..], at, stop, all, parts)
      invariant Checked(families, family)
      decreases MAX_PART - |parts|
    {
      var part, f, next := TakePart(buff, at.value, stop, all, families, parts, family);
      CheckNext(all, families, family);
      parts, family, at := parts + [part], family + [f], next;
      if f == Unspec {
        return UnknownFamily(part);
      }
      if |parts| > 1 && family[0] != f {
        return MixedFamilies(parts[0], part);
      }
    }
    assert parts == all;
    NoComplaint(all, families, 0);
    if (family[0] == Inet && !v4) || (family[0] == Inet6 && !v6) {
      return Unavailable(family[0]);
    }
    return Accepted(Padded(parts), family[0]);
  }

  // ---------------------------------------------------------------- the printed form

  /** "a, b, c" */
  function Printed(a: string, b: string, c: string): string {
    a + "," + (" " + b + "," + (" " + c))
  }

  predicate Clean(s: string) {
    forall i :: 0 <= i < |s| ==> !IsBlank(s[i]) && s[i] != ',' && s[i] != '\n'
  }

  lemma {:induction false} WordOfClean(s: string)
    requires Clean(s)
    ensures Word(s) == s
  {
    if s != "" {
      WordOfClean(s[1..]);
    }
  }

  lemma PartOfClean(s: string)
    requires Clean(s)
    ensures Part(s) == s && Part(" " + s) == s
  {
    WordOfClean(s);
    assert (" " + s)[1..] == s;
    assert SkipBlanks(s) == s;
  }

  lemma {:induction false} PartIsClean(s: string)
    requires ',' !in s && '\n' !in s
    ensures Clean(Word(s)) && Clean(Part(s))
  {
    if s != "" {
      PartIsClean(s[1..]);
    }
  }

  lemma {:induction false} BehindIsWithin(s: string, c: char, d: char)
    requires c in s && d !in s
    ensures d !in Behind(s, c)
  {
    if s[0] != c {
      BehindIsWithin(s[1..], c, d);
    }
  }

  lemma {:induction false} PartsAreClean(s: string, n: nat)
    requires '\n' !in s
    ensures forall i :: 0 <= i < |Parts(s, n)| ==> Clean(Parts(s, n)[i])
    decreases n
  {
    if n > 0 {
      PartIsClean(Before(s, ','));
      if ',' in s {
        BehindIsWithin(s, ',', '\n');
        PartsAreClean(Behind(s, ','), n - 1);
      }
    }
  }

  /** Only clean texts are ever accepted. */
  lemma AcceptedIsClean(s: string, v4: bool, v6: bool)
    requires Parse(s, v4, v6).Accepted?
    ensures forall i :: 0 <= i < |Parse(s, v4, v6).parts| ==> Clean(Parse(s, v4, v6).parts[i])
  {
    var line := Before(s, '\n');
    PartsAreClean(line, MAX_PART);
    PartsCount(line, MAX_PART);
    NoComplaint(Parts(line, MAX_PART), Families(Parts(line, MAX_PART)), 0);
    assert Parse(s, v4, v6).parts == Padded(Parts(line, MAX_PART));
  }

  /** The part in front of a comma, then those of the rest. */
  lemma PartsAtComma(s: string, x: string, rest: string, n: nat)
    requires s == x + "," + rest && ',' !in x && n > 0
    ensures Parts(s, n) == [Part(x)] + Parts(rest, n - 1)
  {
    assert s[..|x|] == x && s[|x| + 1..] == rest;
    SplitAt(s, ',', |x|);
  }

  lemma PrintedIsOneLine(a: string, b: string, c: string)
    requires Clean(a) && Clean(b) && Clean(c)
    ensures Before(Printed(a, b, c), '\n') == Printed(a, b, c)
  {}

  lemma JudgeExact(seen: seq<string>, texts: seq<string>, p: Protocol, v4: bool, v6: bool)
    requires 0 < |seen| <= MAX_PART
    ensures Judge(seen, v4, v6) == Accepted(texts, p) <==>
              && Padded(seen) == texts
              && (forall i :: 0 <= i < |seen| ==> FamilyOf(seen[i]) == p != Unspec)
              && Available(p, v4, v6)
  {
    NoComplaint(seen, Families(seen), 0);
  }

  // ---------------------------------------------------------------- a cut printed form

  lemma PartsWithoutComma(s: string, n: nat)
    requires ',' !in s && n > 0
    ensures Parts(s, n) == [Part(s)]
  {}

  /** What is left of " s" in its first k characters. */
  function Kept(s: string, k: nat): string
    requires k <= |s| + 1
  {
    if k == 0 then "" else s[..k - 1]
  }

  lemma KeptWhole(s: string, k: nat)
    requires k <= |s| + 1
    ensures Kept(s, k) == s <==> k == |s| + 1 || s == ""
  {}

  lemma PartOfCut(s: string, k: nat)
    requires Clean(s) && k <= |s| + 1
    ensures Part((" " + s)[..k]) == Kept(s, k) && ',' !in (" " + s)[..k]
  {
    if k > 0 {
      assert (" " + s)[..k] == " " + s[..k - 1];
      PartOfClean(s[..k - 1]);
    } else {
      assert (" " + s)[..k] == "";
    }
  }

  /** The parts in the first m characters of the printed form ... */
  function Shown(a: string, b: string, c: string, m: nat): (r: seq<string>)
    requires m <= |a| + |b| + |c| + 4
    ensures 0 < |r| <= MAX_PART
  {
    if m <= |a| then [a[..m]] else [a] + ShownTail(b, c, m - |a| - 1)
  }

  /** ... and of what follows its first comma. */
  function ShownTail(b: string, c: string, m: nat): (r: seq<string>)
    requires m <= |b| + |c| + 3
    ensures 0 < |r| <= 2
  {
    if m <= |b| + 1 then [Kept(b, m)] else [b, Kept(c, m - |b| - 2)]
  }

  lemma PartsOfTail(b: string, c: string, m: nat, tail: string, n: nat)
    requires Clean(b) && Clean(c) && m <= |b| + |c| + 3
    requires tail == " " + b + "," + (" " + c) && n == 2
    ensures Parts(tail[..m], n) == ShownTail(b, c, m)
  {
    var t := tail[..m];
    if m <= |b| + 1 {
      assert t == (" " + b)[..m];
      PartOfCut(b, m);
      PartsWithoutComma(t, n);
    } else {
      var t2 := (" " + c)[..m - |b| - 2];
      assert t == " " + b + "," + t2;
      PartOfClean(b);
      PartOfCut(c, m - |b| - 2);
      PartsAtComma(t, " " + b, t2, n);
      PartsWithoutComma(t2, n - 1);
    }
  }

  lemma PartsOfCutForm(a: string, b: string, c: string, m: nat, tail: string, n: nat)
    requires Clean(a) && Clean(b) && Clean(c) && m <= |a| + |b| + |c| + 4
    requires tail == " " + b + "," + (" " + c) && n == MAX_PART
    ensures Parts((a + "," + tail)[..m], n) == Shown(a, b, c, m)
  {
    PartsOfHead(a, tail, m, n);
    if m > |a| {
      PartsOfTail(b, c, m - |a| - 1, tail, n - 1);
    }
  }

  lemma PartsOfHead(a: string, rest: string, m: nat, n: nat)
    requires Clean(a) && m <= |a| + 1 + |rest| && n > 0
    ensures Parts((a + "," + rest)[..m], n)
         == if m <= |a| then [a[..m]] else [a] + Parts(rest[..m - |a| - 1], n - 1)
  {
    var t := (a + "," + rest)[..m];
    if m <= |a| {
      assert t == a[..m];
      PartOfClean(t);
      PartsWithoutComma(t, n);
    } else {
      assert t == a + "," + rest[..m - |a| - 1];
      PartOfClean(a);
      PartsAtComma(t, a, rest[..m - |a| - 1], n);
    }
  }

  /** The first m characters reach the end of the last text that is not empty. */
  predicate Whole(a: string, b: string, c: string, m: nat) {
    m >= if c != "" then |a| + |b| + |c| + 4 else if b != "" then |a| + |b| + 2 else |a|
  }

  lemma ShownWhole(a: string, b: string, c: string, m: nat)
    requires m <= |a| + |b| + |c| + 4
    ensures Padded(Shown(a, b, c, m)) == [a, b, c] <==> Whole(a, b, c, m)
  {
    var r := Padded(Shown(a, b, c, m));
    assert r == [a, b, c] <==> r[0] == a && r[1] == b && r[2] == c;
    if m <= |a| {
      assert r[0] == a[..m] && r[1] == "" && r[2] == "";
      assert a[..m] == a <==> m == |a|;
    } else if m <= |a| + |b| + 2 {
      assert r[0] == a && r[1] == Kept(b, m - |a| - 1) && r[2] == "";
      KeptWhole(b, m - |a| - 1);
    } else {
      assert r[0] == a && r[1] == b && r[2] == Kept(c, m - |a| - |b| - 3);
      KeptWhole(c, m - |a| - |b| - 3);
    }
  }

  /** Those of the three texts that begin in the first m characters are of the family. */
  predicate ShownOf(a: string, b: string, c: string, m: nat, p: Protocol) {
    && FamilyOf(a) == p
    && (m > |a| ==> FamilyOf(b) == p)
    && (m > |a| + |b| + 2 ==> FamilyOf(c) == p)
  }

  lemma ShownFamilies(a: string, b: string, c: string, m: nat, p: Protocol)
    requires m <= |a| + |b| + |c| + 4 && Whole(a, b, c, m)
    ensures var seen := Shown(a, b, c, m);
            (forall i :: 0 <= i < |seen| ==> FamilyOf(seen[i]) == p) <==> ShownOf(a, b, c, m, p)
  {
    var seen := Shown(a, b, c, m);
    ShownWhole(a, b, c, m);
    assert Padded(seen)[0] == a && Padded(seen)[1] == b && Padded(seen)[2] == c;
    assert seen[0] == a;
    assert m > |a| ==> seen[1] == b;
    assert m > |a| + |b| + 2 ==> seen[2] == c;
  }

  /** The first m characters of the printed form parse back to the three texts exactly when the
      texts hold no blank, comma or newline, none is cut, and those that begin there are of one
      known family that is enabled. */
  lemma CutParsesBack(a: string, b: string, c: string, m: nat, p: Protocol, v4: bool, v6: bool)
    requires m <= |a| + |b| + |c| + 4
    ensures Parse(Printed(a, b, c)[..m], v4, v6) == Accepted([a, b, c], p) <==>
              && Clean(a) && Clean(b) && Clean(c)
              && Whole(a, b, c, m) && ShownOf(a, b, c, m, p)
              && p != Unspec && Available(p, v4, v6)
  {
    var s, parts := Printed(a, b, c)[..m], [a, b, c];
    if Parse(s, v4, v6) == Accepted(parts, p) {
      AcceptedIsClean(s, v4, v6);
      assert Clean(parts[0]) && Clean(parts[1]) && Clean(parts[2]);
    }
    if Clean(a) && Clean(b) && Clean(c) {
      PrintedIsOneLine(a, b, c);
      assert '\n' !in s;
      PartsOfCutForm(a, b, c, m, " " + b + "," + (" " + c), MAX_PART);
      ShownJudged(a, b, c, m, p, v4, v6);
    }
  }

  lemma ShownJudged(a: string, b: string, c: string, m: nat, p: Protocol, v4: bool, v6: bool)
    requires m <= |a| + |b| + |c| + 4
    ensures Judge(Shown(a, b, c, m), v4, v6) == Accepted([a, b, c], p) <==>
              && Whole(a, b, c, m) && ShownOf(a, b, c, m, p)
              && p != Unspec && Available(p, v4, v6)
  {
    JudgeExact(Shown(a, b, c, m), [a, b, c], p, v4, v6);
    ShownWhole(a, b, c, m);
    if Whole(a, b, c, m) {
      ShownFamilies(a, b, c, m, p);
    }
  }

  /** The uncut printed form parses back to its three texts exactly when they hold no blank,
      comma or newline, are of one known family, and that family is enabled. */
  lemma PrintedParsesBack(a: string, b: string, c: string, p: Protocol, v4: bool, v6: bool)
    ensures Parse(Printed(a, b, c), v4, v6) == Accepted([a, b, c], p) <==>
              && Clean(a) && Clean(b) && Clean(c)
              && p == FamilyOf(a) == FamilyOf(b) == FamilyOf(c)
              && ((p == Inet && v4) || (p == Inet6 && v6))
  {
    var s := Printed(a, b, c);
    assert s[..|s|] == s;
    CutParsesBack(a, b, c, |s|, p, v4, v6);
  }

  /** snprintf into the rule's line buffer: cut when it does not fit. */
  function Stored(a: string, b: string, c: string, size: nat): string
    requires size > 0
  {
    var s := Printed(a, b, c);
    if |s| < size then s else s[..size - 1]
  }

  /** The form a rule keeps, in a buffer of `size` characters, parses back exactly when in
      addition no text is cut; the family of a text counts only where its comma was kept. */
  lemma StoredParsesBack(a: string, b: string, c: string, size: nat, p: Protocol, v4: bool, v6: bool)
    requires size > 0
    ensures Parse(Stored(a, b, c, size), v4, v6) == Accepted([a, b, c], p) <==>
              && Clean(a) && Clean(b) && Clean(c)
              && (if c != "" then |a| + |b| + |c| + 4 < size
                  else if b != "" then |a| + |b| + 2 < size
                  else |a| < size)
              && FamilyOf(a) == p && ((p == Inet && v4) || (p == Inet6 && v6))
              && (|a| + 1 < size ==> FamilyOf(b) == p)
              && (|a| + |b| + 3 < size ==> FamilyOf(c) == p)
  {
    var s := Printed(a, b, c);
    var m := if |s| < size then |s| else size - 1;
    assert |s| == |a| + |b| + |c| + 4 && s[..|s|] == s;
    assert Stored(a, b, c, size) == s[..m];
    CutParsesBack(a, b, c, m, p, v4, v6);
  }

  /** Three dotted addresses always fit the 64 characters of an IPv4 rule. */
  lemma DottedLinesFit(a: string, b: string, c: string)
    requires |a| <= 15 && |b| <= 15 && |c| <= 15
    ensures Stored(a, b, c, 64) == Printed(a, b, c) == a + ", " + b + ", " + c
  {
    assert Printed(a, b, c) == a + ", " + b + ", " + c;
  }

  /** The 128 characters of an IPv6 rule can be too few for three addresses as long as IPv6
      addresses get. */
  lemma LongLineIsCut(quad: string, a: string)
    requires quad == "ffff:"
    requires a == quad + quad + quad + quad + quad + quad + "255.255.255.255"
    ensures |a| == 45
    ensures Parse(Printed(a, a, a), true, true) == Accepted([a, a, a], Inet6)
    ensures Parse(Stored(a, a, a, 128), true, true) != Accepted([a, a, a], Inet6)
  {
    assert Clean(quad) && Clean("255.255.255.255");
    assert Clean(a);
    assert a[4] == ':';
    PrintedParsesBack(a, a, a, Inet6, true, true);
    StoredParsesBack(a, a, a, 128, Inet6, true, true);
  }

  /** A line of one IPv6 address alone is accepted with empty parts, but the form kept of it is
      not: an empty part counts as IPv4. */
  lemma LoneAddressIsMixed(a: string)
    requires Clean(a) && ':' in a
    ensures Parse(a, true, true) == Accepted([a, "", ""], Inet6)
    ensures forall p :: Parse(Printed(a, "", ""), true, true) != Accepted([a, "", ""], p)
  {
    PartOfClean(a);
    PartsWithoutComma(a, 3);
    assert '\n' !in a;
    JudgeExact([a], [a, "", ""], Inet6, true, true);
    forall p
      ensures Parse(Printed(a, "", ""), true, true) != Accepted([a, "", ""], p)
    {
      PrintedParsesBack(a, "", "", p, true, true);
    }
  }
}
