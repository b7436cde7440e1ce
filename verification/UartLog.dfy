/**
  The logger of src/uart_log.rs: fixed-size lines, a ring of bytes that both cores fill and the
  UART empties, and a record that is queued whole or counted as dropped.
 */
module UartLog {
  import opened Common

  const PIPE_LEN: nat := 16384
  const LINE_LEN: nat := 320
  const NOTICE_LEN: nat := 40

  /** The largest `u32`, where the count of dropped records saturates. */
  const MAX_COUNT: nat := 0xffff_ffff

  const LF: byte := 10

  function Eol(): Bytes {
    [13, LF]
  }

  /** `s`, cut off after `n` bytes. */
  function Cut(s: Bytes, n: nat): (r: Bytes)
    ensures |r| == Min(|s|, n) && r <= s
  {
    if |s| <= n then s else s[..n]
  }

  function Concat(fragments: seq<Bytes>): Bytes {
    if fragments == [] then [] else Concat(fragments[..|fragments| - 1]) + fragments[|fragments| - 1]
  }

  function Ascii(s: string): (r: Bytes)
    requires forall i :: 0 <= i < |s| ==> ' ' <= s[i] <= '~'
    ensures |r| == |s| && LF !in r
  {
    seq(|s|, i requires 0 <= i < |s| => s[i] as int as byte)
  }

  // ---- Decimal numbers ----

  function Decimal(n: nat): (r: Bytes)
    ensures LF !in r
  {
    if n < 10 then [48 + n] else Decimal(n / 10) + [48 + n % 10]
  }

  function ParseDecimal(s: Bytes): int {
    if s == [] then 0 else 10 * ParseDecimal(s[..|s| - 1]) + s[|s| - 1] - 48
  }

  lemma {:induction false} ParseOfDecimal(n: nat)
    ensures ParseDecimal(Decimal(n)) == n
  {
    if n < 10 {
      assert [48 + n][..0] == [];
    } else {
      ParseOfDecimal(n / 10);
      var d := Decimal(n);
      assert d[..|d| - 1] == Decimal(n / 10);
    }
  }

  function Power10(k: nat): nat {
    if k == 0 then 1 else 10 * Power10(k - 1)
  }

  lemma {:induction false} DecimalLength(n: nat, k: nat)
    requires k > 0 && n < Power10(k)
    ensures |Decimal(n)| <= k
  {
    if n < 10 {
    } else {
      assert Power10(1) == 10;
      DecimalLength(n / 10, k - 1);
    }
  }

  // ---- What the calls put out ----

  /** A call of `log` with its formatted text, and whether it got into the pipe. */
  datatype Call = Call(text: Bytes, accepted: bool)

  datatype Entry = Line(text: Bytes) | Notice(count: nat)

  function NoticeText(count: nat): (r: Bytes)
    ensures LF !in r
  {
    Ascii("[") + Decimal(count) + Ascii(" log records dropped]")
  }

  /** However many were dropped, the notice is not cut off, and it says how many. */
  lemma NoticeFits(count: nat)
    requires count <= MAX_COUNT
    ensures |NoticeText(count)| + |Eol()| <= NOTICE_LEN
    ensures exists digits :: NoticeText(count) == Ascii("[") + digits + Ascii(" log records dropped]") && ParseDecimal(digits) == count
  {
    assert Power10(2) == 100;
    assert Power10(4) == 10000;
    assert Power10(6) == 1000000;
    assert Power10(8) == 100000000;
    DecimalLength(count, 10);
    ParseOfDecimal(count);
  }

  function EntryBytes(e: Entry): Bytes {
    match e
    case Line(text) => text + Eol()
    case Notice(count) => NoticeText(count) + Eol()
  }

  function Stream(entries: seq<Entry>): Bytes {
    if entries == [] then [] else Stream(entries[..|entries| - 1]) + EntryBytes(entries[|entries| - 1])
  }

  lemma StreamNext(entries: seq<Entry>, e: Entry)
    ensures Stream(entries + [e]) == Stream(entries) + EntryBytes(e)
  {
    assert (entries + [e])[..|entries|] == entries;
  }

  lemma StreamOne(e: Entry)
    ensures Stream([]) == [] && Stream([e]) == EntryBytes(e)
  {
    assert [e][..0] == [];
  }

  /** A notice due and a line behind it. */
  lemma StreamAccepted(entries: seq<Entry>, due: seq<Entry>, text: Bytes)
    requires |due| <= 1
    ensures Stream(entries + due + [Line(text)]) == Stream(entries) + Stream(due) + (text + Eol())
  {
    hide Stream, NoticeText;
    StreamNext(entries + due, Line(text));
    if due == [] {
      assert entries + due == entries;
      StreamOne(Line(text));
      assert Stream(entries) + [] == Stream(entries);
    } else {
      assert due == [due[0]];
      StreamNext(entries, due[0]);
      StreamOne(due[0]);
    }
  }

  /** Records dropped since the last accepted one, as counted. */
  function DroppedAfter(calls: seq<Call>): (n: nat)
    ensures n <= MAX_COUNT
  {
    if calls == [] || calls[|calls| - 1].accepted then 0
    else Min(DroppedAfter(calls[..|calls| - 1]) + 1, MAX_COUNT)
  }

  /** What goes in front of the next record that is accepted. */
  function Pending(dropped: nat): seq<Entry> {
    if dropped == 0 then [] else [Notice(dropped)]
  }

  /** The accepted records in call order, each with a notice in front of it if any were dropped
      since the one before. */
  function Output(calls: seq<Call>): seq<Entry> {
    if calls == [] then []
    else
      var before, last := calls[..|calls| - 1], calls[|calls| - 1];
      if last.accepted then Output(before) + Pending(DroppedAfter(before)) + [Line(last.text)] else Output(before)
  }

  lemma CallNext(calls: seq<Call>, c: Call)
    ensures DroppedAfter(calls + [c]) == if c.accepted then 0 else Min(DroppedAfter(calls) + 1, MAX_COUNT)
    ensures Output(calls + [c])
            == if c.accepted then Output(calls) + Pending(DroppedAfter(calls)) + [Line(c.text)] else Output(calls)
  {
    assert (calls + [c])[..|calls|] == calls;
  }

  // ---- Conservation ----

  function Lines(entries: seq<Entry>): nat {
    if entries == [] then 0
    else Lines(entries[..|entries| - 1]) + if entries[|entries| - 1].Line? then 1 else 0
  }

  function Announced(entries: seq<Entry>): nat {
    if entries == [] then 0
    else Announced(entries[..|entries| - 1]) + if entries[|entries| - 1].Notice? then entries[|entries| - 1].count else 0
  }

  /** Records dropped while the counter could not go any further. */
  function Uncounted(calls: seq<Call>): nat {
    if calls == [] then 0
    else
      var before := calls[..|calls| - 1];
      Uncounted(before) + if !calls[|calls| - 1].accepted && DroppedAfter(before) == MAX_COUNT then 1 else 0
  }

  lemma CountNext(entries: seq<Entry>, e: Entry)
    ensures Lines(entries + [e]) == Lines(entries) + if e.Line? then 1 else 0
    ensures Announced(entries + [e]) == Announced(entries) + if e.Notice? then e.count else 0
  {
    assert (entries + [e])[..|entries|] == entries;
  }

  /** No record is lost without a trace: lines put out, drops announced and drops still to be
      announced make up all calls, but for those dropped with the counter saturated. */
  lemma {:induction false} Conservation(calls: seq<Call>)
    ensures Lines(Output(calls)) + Announced(Output(calls)) + DroppedAfter(calls) + Uncounted(calls) == |calls|
  {
    if calls == [] {
    } else {
      var before, last := calls[..|calls| - 1], calls[|calls| - 1];
      Conservation(before);
      if last.accepted {
        var d := DroppedAfter(before);
        if d != 0 {
          CountNext(Output(before), Notice(d));
          CountNext(Output(before) + [Notice(d)], Line(last.text));
        } else {
          CountNext(Output(before), Line(last.text));
          assert Output(before) + [] == Output(before);
        }
      }
    }
  }

  /** The lines put out are the texts of the accepted calls, in call order. */
  function Texts(entries: seq<Entry>): seq<Bytes> {
    if entries == [] then []
    else Texts(entries[..|entries| - 1]) + if entries[|entries| - 1].Line? then [entries[|entries| - 1].text] else []
  }

  function Accepted(calls: seq<Call>): seq<Bytes> {
    if calls == [] then []
    else Accepted(calls[..|calls| - 1]) + if calls[|calls| - 1].accepted then [calls[|calls| - 1].text] else []
  }

  lemma TextsNext(entries: seq<Entry>, e: Entry)
    ensures Texts(entries + [e]) == Texts(entries) + if e.Line? then [e.text] else []
  {
    assert (entries + [e])[..|entries|] == entries;
  }

  lemma {:induction false} TextsInOrder(calls: seq<Call>)
    ensures Texts(Output(calls)) == Accepted(calls)
  {
    if calls == [] {
    } else {
      var before, last := calls[..|calls| - 1], calls[|calls| - 1];
      TextsInOrder(before);
      if last.accepted {
        var d := DroppedAfter(before);
        if d != 0 {
          TextsNext(Output(before), Notice(d));
        }
        TextsNext(Output(before) + Pending(d), Line(last.text));
        assert Output(before) + [] == Output(before);
      }
    }
  }

  // ---- Where notices stand ----

  /** The `k` calls before the last one were refused, and the one before those was not. */
  predicate RefusedBefore(calls: seq<Call>, k: nat) {
    && k < |calls|
    && (forall i :: |calls| - 1 - k <= i < |calls| - 1 ==> !calls[i].accepted)
    && (k + 1 < |calls| ==> calls[|calls| - 2 - k].accepted)
  }

  lemma {:induction false} RefusedCount(calls: seq<Call>, k: nat)
    requires k <= |calls| && forall i :: |calls| - k <= i < |calls| ==> !calls[i].accepted
    requires k < |calls| ==> calls[|calls| - 1 - k].accepted
    ensures DroppedAfter(calls) == Min(k, MAX_COUNT) && Output(calls) == Output(calls[..|calls| - k])
    decreases k
  {
    if k == 0 {
      assert calls[..|calls|] == calls;
    } else {
      var before := calls[..|calls| - 1];
      RefusedCount(before, k - 1);
      assert before[..|before| - (k - 1)] == calls[..|calls| - k];
    }
  }

  /** An accepted record comes right behind what was put out before the refused ones in front of
      it, with one notice of their number between if there are any. */
  lemma {:induction false} NoticeInFront(calls: seq<Call>, k: nat)
    requires calls != [] && calls[|calls| - 1].accepted && RefusedBefore(calls, k)
    ensures Output(calls)
            == Output(calls[..|calls| - 1 - k])
               + (if k == 0 then [] else [Notice(if k < 0xffff_ffff then k else 0xffff_ffff)])
               + [Line(calls[|calls| - 1].text)]
  {
    var before := calls[..|calls| - 1];
    RefusedCount(before, k);
    assert before[..|before| - k] == calls[..|calls| - 1 - k];
  }

  // ---- Reading the stream back ----

  /** The lines of a stream, each up to and including its LF; what follows the last LF is left
      out. */
  function SplitLines(s: Bytes, line: Bytes): seq<Bytes>
    decreases |s|
  {
    if s == [] then []
    else if s[0] == LF then [line + [LF]] + SplitLines(s[1..], [])
    else SplitLines(s[1..], line + [s[0]])
  }

  lemma {:induction false} SplitFirst(a: Bytes, rest: Bytes, line: Bytes)
    requires LF !in a
    ensures SplitLines(a + [LF] + rest, line) == [line + a + [LF]] + SplitLines(rest, [])
    decreases |a|
  {
    var s := a + [LF] + rest;
    if a == [] {
      assert s[1..] == rest && line + [] == line;
    } else {
      assert s[1..] == a[1..] + [LF] + rest;
      SplitFirst(a[1..], rest, line + [a[0]]);
      assert line + [a[0]] + a[1..] == line + a;
    }
  }

  function AllBytes(entries: seq<Entry>): (r: seq<Bytes>)
    ensures |r| == |entries| && forall i :: 0 <= i < |r| ==> r[i] == EntryBytes(entries[i])
  {
    seq(|entries|, i requires 0 <= i < |entries| => EntryBytes(entries[i]))
  }

  /** An entry is one line: it ends with the only LF it has. */
  lemma EntryIsLine(e: Entry, rest: Bytes)
    requires e.Line? ==> LF !in e.text
    ensures SplitLines(EntryBytes(e) + rest, []) == [EntryBytes(e)] + SplitLines(rest, [])
  {
    hide NoticeText, SplitLines;
    var text := match e case Line(t) => t case Notice(n) => NoticeText(n);
    SplitFirst(text + [13], rest, []);
    assert EntryBytes(e) == [] + (text + [13]) + [LF];
    assert EntryBytes(e) + rest == (text + [13]) + [LF] + rest;
  }

  lemma {:induction false} SplitStream(entries: seq<Entry>, rest: Bytes)
    requires forall i :: 0 <= i < |entries| && entries[i].Line? ==> LF !in entries[i].text
    ensures SplitLines(Stream(entries) + rest, []) == AllBytes(entries) + SplitLines(rest, [])
    decreases |entries|
  {
    hide SplitLines, EntryBytes;
    if entries == [] {
      assert Stream(entries) + rest == rest;
    } else {
      var before, last := entries[..|entries| - 1], entries[|entries| - 1];
      var line := EntryBytes(last);
      SplitStream(before, line + rest);
      EntryIsLine(last, rest);
      assert Stream(entries) + rest == Stream(before) + (line + rest);
      assert AllBytes(entries) == AllBytes(before) + [line];
    }
  }

  /** A reader who splits the stream at line ends finds exactly the accepted records and the
      notices, whole and in order, each with CR LF (13, 10) behind it, provided no record's text
      holds a line feed itself. */
  lemma {:induction false} LinesRecovered(calls: seq<Call>)
    requires forall i :: 0 <= i < |calls| ==> LF !in calls[i].text
    ensures var lines, entries := SplitLines(Stream(Output(calls)), []), Output(calls);
            && lines == AllBytes(entries)
            && forall i :: 0 <= i < |lines| ==>
                 lines[i] == (match entries[i] case Line(text) => text case Notice(n) => NoticeText(n)) + [13, 10]
  {
    OutputTexts(calls);
    SplitStream(Output(calls), []);
    assert Stream(Output(calls)) + [] == Stream(Output(calls));
  }

  lemma {:induction false} OutputTexts(calls: seq<Call>)
    requires forall i :: 0 <= i < |calls| ==> LF !in calls[i].text
    ensures forall i :: 0 <= i < |Output(calls)| && Output(calls)[i].Line? ==> LF !in Output(calls)[i].text
  {
    if calls == [] {
    } else {
      OutputTexts(calls[..|calls| - 1]);
    }
  }

  // ---- Lines ----

  /** `LineBuf<N>`: keeps as much text as fits with two bytes to spare for CR LF. */
  class LineBuf {
    const buf: array<byte>
    var len: nat

    ghost predicate Valid()
      reads this
    {
      len <= buf.Length
    }

    ghost predicate Open()
      reads this
    {
      len + |Eol()| <= buf.Length
    }

    /** `bytes`: what has been written. */
    function Text(): Bytes
      requires Valid()
      reads this, buf
    {
      buf[..len]
    }

    constructor (n: nat)
      requires n >= |Eol()|
      ensures fresh(buf) && buf.Length == n && Open() && Text() == []
    {
      buf := new byte[n](i => 0);
      len := 0;
    }

    method WriteStr(s: Bytes)
      requires Open()
      modifies this`len, buf
      ensures Open() && Text() == Cut(old(Text()) + s, buf.Length - |Eol()|)
    {
      var room := buf.Length - |Eol()| - len;
      var n := Min(|s|, room);
      forall i | 0 <= i < n {
        buf[len + i] := s[i];
      }
      len := len + n;
      assert buf[..len] == old(buf[..len]) + s[..n];
    }

    /** `write!`: the formatted arguments come in any number of fragments. */
    method Write(fragments: seq<Bytes>)
      requires Open() && len == 0
      modifies this`len, buf
      ensures Open() && Text() == Cut(Concat(fragments), buf.Length - |Eol()|)
    {
      var k := 0;
      while k < |fragments|
        invariant k <= |fragments| && Open()
        invariant Text() == Cut(Concat(fragments[..k]), buf.Length - |Eol()|)
      {
        WriteStr(fragments[k]);
        assert fragments[..k + 1][..k] == fragments[..k];
        k := k + 1;
      }
      assert fragments[..k] == fragments;
    }

    method EndLine()
      requires Open()
      modifies this`len, buf
      ensures Valid() && Text() == old(Text()) + Eol()
    {
      buf[len], buf[len + 1] := Eol()[0], Eol()[1];
      len := len + |Eol()|;
      assert buf[..len] == old(buf[..len]) + Eol();
    }
  }

  // ---- The pipe ----

  /** A ring of bytes. One call writes or reads no further than the end of the buffer. */
  class Pipe {
    const buf: array<byte>
    var start: nat
    var len: nat

    ghost predicate Valid()
      reads this
    {
      start < buf.Length && len <= buf.Length
    }

    /** Where the byte `i` after the start is, in a ring of `size` bytes. */
    static function At(start: nat, i: nat, size: nat): (k: nat)
      requires start < size && i <= size
      ensures k < size
    {
      if start + i < size then start + i else start + i - size
    }

    ghost function Contents(): (s: Bytes)
      requires Valid()
      reads this, buf
      ensures |s| == len && forall i :: 0 <= i < len ==> s[i] == buf[At(start, i, buf.Length)]
    {
      seq(len, i requires 0 <= i < len && Valid() reads this, buf => buf[At(start, i, buf.Length)])
    }

    constructor (n: nat)
      requires n > 0
      ensures fresh(buf) && buf.Length == n && Valid() && Contents() == []
    {
      buf := new byte[n](i => 0);
      start, len := 0, 0;
    }

    function FreeCapacity(): nat
      requires Valid()
      reads this
    {
      buf.Length - len
    }

    /** `try_write`: at least one byte, unless the pipe is full or there is nothing to write. */
    method TryWrite(bytes: Bytes) returns (n: Option<nat>)
      requires Valid()
      modifies this`len, buf
      ensures Valid()
      ensures n.None? <==> old(len) == buf.Length
      ensures n.None? ==> Contents() == old(Contents())
      ensures n.Some? ==>
                && n.value <= |bytes| && (bytes != [] ==> n.value > 0)
                && Contents() == old(Contents()) + bytes[..n.value]
    {
      if len == buf.Length {
        return None;
      }
      ghost var was := Contents();
      var end := At(start, len, buf.Length);
      var room := if start + len < buf.Length then buf.Length - end else start - end;
      var k := Min(|bytes|, room);
      forall i | 0 <= i < k {
        buf[end + i] := bytes[i];
      }
      len := len + k;
      n := Some(k);
      forall i | 0 <= i < len
        ensures Contents()[i] == (was + bytes[..k])[i]
      {
        if i < old(len) {
          assert was[i] == old(buf[At(start, i, buf.Length)]);
        } else {
          assert At(start, i, buf.Length) == end + (i - old(len));
        }
      }
      assert Contents() == was + bytes[..k];
    }

    /** `read`, when there is something: up to `max` bytes. */
    method Read(max: nat) returns (bytes: Bytes)
      requires Valid() && len > 0 && max > 0
      modifies this`start, this`len
      ensures Valid() && 0 < |bytes| <= max && old(Contents()) == bytes + Contents()
    {
      var n := Min(max, Min(len, buf.Length - start));
      ghost var was := Contents();
      bytes := buf[start..start + n];
      start, len := At(start, n, buf.Length), len - n;
      forall i | 0 <= i < |was|
        ensures was[i] == (bytes + Contents())[i]
      {
        if i >= n {
          assert At(start, i - n, buf.Length) == At(old(start), i, buf.Length);
        }
      }
      assert was == bytes + Contents();
    }
  }

  /** `push`: writes all that fits, in as many pieces as the ring takes it. */
  method Push(pipe: Pipe, bytes: Bytes)
    requires pipe.Valid()
    modifies pipe`len, pipe.buf
    ensures pipe.Valid()
    ensures pipe.Contents() == old(pipe.Contents()) + Cut(bytes, old(pipe.FreeCapacity()))
  {
    var left := bytes;
    ghost var done := 0;
    while left != []
      invariant pipe.Valid() && done <= |bytes| && left == bytes[done..]
      invariant pipe.Contents() == old(pipe.Contents()) + bytes[..done]
      decreases |left|
    {
      var n := pipe.TryWrite(left);
      match n {
        case Some(k) =>
          assert bytes[..done] + left[..k] == bytes[..done + k];
          left, done := left[k..], done + k;
        case None =>
          return;
      }
    }
  }

  // ---- The logger ----

  class Logger {
    const pipe: Pipe
    var dropped: nat
    // What the UART has been given.
    var uart: Bytes
    ghost var calls: seq<Call>

    /** What went into the pipe is the output of the calls, the UART has got a prefix of it, and
        `dropped` is what the next notice has to say. */
    ghost predicate Valid()
      reads this, pipe, pipe.buf
    {
      && pipe.Valid() && pipe.buf.Length == PIPE_LEN
      && uart + pipe.Contents() == Stream(Output(calls))
      && dropped == DroppedAfter(calls)
    }

    constructor ()
      ensures Valid() && fresh(pipe) && fresh(pipe.buf) && calls == [] && uart == []
    {
      pipe := new Pipe(PIPE_LEN);
      dropped, uart, calls := 0, [], [];
    }

    /** `[<n> log records dropped]`, never cut off. */
    method FormatNotice(dropped: nat) returns (notice: LineBuf)
      requires dropped <= MAX_COUNT
      ensures fresh(notice) && fresh(notice.buf) && notice.Valid()
      ensures notice.Text() == Stream(Pending(dropped))
    {
      notice := new LineBuf(NOTICE_LEN);
      if dropped != 0 {
        NoticeFits(dropped);
        notice.Write([NoticeText(dropped)]);
        assert Concat([NoticeText(dropped)]) == NoticeText(dropped);
        notice.EndLine();
      }
    }

    /** The critical section of `log`: the line goes into the pipe whole, with the notice due in
        front of it, if there is room for both; otherwise it is counted. */
    method Commit(line: Bytes, ghost text: Bytes) returns (accepted: bool)
      requires Valid() && line == text + Eol()
      modifies this`dropped, this`calls, pipe`len, pipe.buf
      ensures Valid() && calls == old(calls) + [Call(text, accepted)]
      ensures accepted <==>
              |old(pipe.Contents())| + |Stream(Pending(old(dropped)))| + |line| <= PIPE_LEN
    {
      hide Output, DroppedAfter, Stream, Pending, Eol;
      CallNext(calls, Call(text, true));
      CallNext(calls, Call(text, false));
      var notice := FormatNotice(dropped);
      ghost var was := pipe.Contents();
      if pipe.FreeCapacity() < notice.len + |line| {
        dropped := Min(dropped + 1, MAX_COUNT);
        calls := calls + [Call(text, false)];
        return false;
      }
      AddEntries(was, text);
      Push(pipe, notice.Text());
      Push(pipe, line);
      dropped := 0;
      calls := calls + [Call(text, true)];
      return true;
    }

    lemma AddEntries(was: Bytes, text: Bytes)
      requires uart + was == Stream(Output(calls))
      ensures uart + (was + Stream(Pending(dropped)) + (text + Eol())) == Stream(Output(calls) + Pending(dropped) + [Line(text)])
    {
      hide Output, Stream;
      StreamAccepted(Output(calls), Pending(dropped), text);
    }

    /** `log`: the formatted record, cut to the length of a line. */
    method Log(fragments: seq<Bytes>) returns (accepted: bool)
      requires Valid()
      modifies this`dropped, this`calls, pipe`len, pipe.buf
      ensures Valid()
      ensures var text := Cut(Concat(fragments), LINE_LEN - |Eol()|);
              && calls == old(calls) + [Call(text, accepted)]
              && (accepted <==>
                    |old(pipe.Contents())| + |Stream(Pending(old(dropped)))| + |text + Eol()| <= PIPE_LEN)
    {
      hide Output, DroppedAfter, Stream, Pending, Concat;
      var line := new LineBuf(LINE_LEN);
      line.Write(fragments);
      ghost var text := line.Text();
      line.EndLine();
      accepted := Commit(line.Text(), text);
    }

    /** One turn of `task`. */
    method Drain()
      requires Valid()
      modifies this`uart, pipe`start, pipe`len
      ensures Valid() && calls == old(calls) && old(uart) <= uart
      ensures old(pipe.len) > 0 ==> old(uart) < uart
    {
      hide Output, DroppedAfter, Stream;
      if pipe.len > 0 {
        var chunk := pipe.Read(64);
        uart := uart + chunk;
      }
    }

    /** What holds after any run of calls and reads: nothing is lost without a trace, the lines
        are the accepted records in call order, and the UART has got a beginning of it. */
    lemma ValidMeans()
      requires Valid()
      ensures Lines(Output(calls)) + Announced(Output(calls)) + dropped + Uncounted(calls) == |calls|
      ensures Texts(Output(calls)) == Accepted(calls)
      ensures uart <= Stream(Output(calls)) && (pipe.len == 0 ==> uart == Stream(Output(calls)))
    {
      Conservation(calls);
      TextsInOrder(calls);
    }
  }
}
