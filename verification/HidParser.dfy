/**
  `log_report_summary` and `read_feature_reports` of src/hid.rs: the offset-driven parser with
  its fixed table and stack, against the interpreter of `HidReports`.
 */
module HidParser {
  import opened Common
  import opened HidItems
  import opened HidReports

  // ---- What the log of a descriptor says about application collections ----

  /** The usage of the next collection: the first Usage since the last main item. */
  function NextUsage(usage: Option<nat>, it: Item): Option<nat> {
    if it.Short? && it.kind == MAIN then None
    else if it.Short? && it.kind == LOCAL && it.tag == 0x0 && usage.None? then Some(Value(it.data))
    else usage
  }

  /** An application collection: usage page and usage. */
  function Collection(g: Globals, usage: Option<nat>, it: Item): seq<(nat, nat)> {
    if it.Short? && it.kind == MAIN && it.tag == 0xa && Value(it.data) == 1
    then [(g.usagePage, if usage.Some? then usage.value else 0)]
    else []
  }

  function Collections(s: State, usage: Option<nat>, items: seq<Item>): seq<(nat, nat)>
    decreases |items|
  {
    if items == [] then []
    else Collection(s.g, usage, items[0])
         + Collections(Global(s, items[0], STACK_DEPTH), NextUsage(usage, items[0]), items[1..])
  }

  // ---- The table in its fixed array ----

  /** The rows in use come first, the free ones after. */
  predicate Holds(rows: seq<Option<Report>>, table: seq<Report>) {
    && |table| <= |rows| == MAX_REPORTS
    && forall k :: 0 <= k < MAX_REPORTS ==> rows[k] == if k < |table| then Some(table[k]) else None
  }

  method AddMain(reports: array<Option<Report>>, c: Report, ghost table: seq<Report>)
    requires Holds(reports[..], table)
    modifies reports
    ensures Holds(reports[..], Add(table, c))
  {
    var k := 0;
    while k < reports.Length && !(reports[k].Some? && SameReport(reports[k].value, c.id, c.kind))
      invariant 0 <= k <= reports.Length
      invariant forall j :: 0 <= j < k && j < |table| ==> !SameReport(table[j], c.id, c.kind)
    {
      k := k + 1;
    }
    if k < reports.Length {
      var r := reports[k].value;
      reports[k] := Some(r.(bits := (r.bits + c.bits) % TWO_TO_THE_32));
      return;
    }
    k := 0;
    while k < reports.Length && reports[k].Some?
      invariant 0 <= k <= reports.Length
      invariant k <= |table|
    {
      k := k + 1;
    }
    if k < reports.Length {
      reports[k] := Some(c);
    }
  }

  // ---- One step of the parser, on the bytes that are left ----

  function From(desc: Bytes, i: nat): Bytes {
    if i <= |desc| then desc[i..] else []
  }

  lemma SliceOfRest(desc: Bytes, i: nat, a: nat, b: nat)
    requires i <= |desc| && a <= b && i + b <= |desc|
    ensures desc[i..][a..b] == desc[i + a..i + b] && desc[i..][b..] == desc[i + b..]
  {
  }

  lemma LongStep(desc: Bytes, i: nat, size: nat) returns (skipped: seq<Item>)
    requires i < |desc| && desc[i] == LONG_PREFIX && size == (if i + 1 < |desc| then desc[i + 1] else 0)
    ensures |skipped| <= 1 && forall k :: 0 <= k < |skipped| ==> skipped[k].Long?
    ensures Items(From(desc, i)) == skipped + Items(From(desc, i + 3 + size))
  {
    var d := desc[i..];
    skipped := [];
    if ItemLength(d).Some? {
      SliceOfRest(desc, i, 3, 3 + size);
      skipped := [Decode(d)];
    }
  }

  lemma ShortStep(desc: Bytes, i: nat)
    requires i < |desc| && desc[i] != LONG_PREFIX
    ensures var size := DataSize(desc[i]);
            if i + 1 + size <= |desc| then
              Items(From(desc, i))
              == [Short(desc[i] / 16, desc[i] / 4 % 4, desc[i + 1..i + 1 + size])] + Items(From(desc, i + 1 + size))
            else Items(From(desc, i)) == []
  {
    hide Items, Rest;
    var d := desc[i..];
    var size := DataSize(desc[i]);
    ItemsFirst(d);
    assert ItemLength(d) == if i + 1 + size <= |desc| then Some(1 + size) else None;
    if i + 1 + size <= |desc| {
      SliceOfRest(desc, i, 1, 1 + size);
    }
  }

  lemma {:induction false} AddAllFirst(table: seq<Report>, c: Report, cs: seq<Report>)
    ensures AddAll(table, [c] + cs) == AddAll(Add(table, c), cs)
    decreases |cs|
  {
    hide Add;
    var all := [c] + cs;
    if cs == [] {
      assert all == [c] && all[..0] == [];
    } else {
      var n := |cs| - 1;
      assert all[..|all| - 1] == [c] + cs[..n];
      AddAllFirst(table, c, cs[..n]);
    }
  }

  /** What is still to come, after what was read so far, makes up the whole. */
  predicate ToCome(desc: Bytes, i: nat, s: State, usage: Option<nat>, table: seq<Report>, log: seq<(nat, nat)>) {
    && AddAll(table, Contributions(s, Items(From(desc, i)), STACK_DEPTH)) == Summary(desc)
    && log + Collections(s, usage, Items(From(desc, i))) == Collections(START, None, Items(desc))
  }

  lemma ItemRead(desc: Bytes, i: nat, j: nat, s: State, usage: Option<nat>, table: seq<Report>, log: seq<(nat, nat)>, it: Item)
    requires ToCome(desc, i, s, usage, table, log)
    requires Items(From(desc, i)) == [it] + Items(From(desc, j))
    ensures ToCome(desc, j, Global(s, it, STACK_DEPTH), NextUsage(usage, it),
                   if Adds(s.g, it) == [] then table else Add(table, Adds(s.g, it)[0]),
                   if Collection(s.g, usage, it) == [] then log else log + Collection(s.g, usage, it))
  {
    hide Items, From, Global, Summary, NextUsage, AddAll, Add;
    var items, more := Items(From(desc, i)), Items(From(desc, j));
    assert items[0] == it && items[1..] == more;
    assert Collection(s.g, usage, it) == [] ==> log + Collection(s.g, usage, it) == log;
    var rest := Contributions(Global(s, it, STACK_DEPTH), more, STACK_DEPTH);
    if Adds(s.g, it) == [] {
      assert Adds(s.g, it) + rest == rest;
    } else {
      AddAllFirst(table, Adds(s.g, it)[0], rest);
    }
  }

  /** Item data is little-endian, read from its last byte to its first. */
  method ReadValue(bytes: Bytes) returns (data: nat)
    ensures data == Value(bytes)
  {
    data := 0;
    var k := |bytes|;
    while k > 0
      invariant 0 <= k <= |bytes| && data == Value(bytes[k..])
    {
      k := k - 1;
      assert bytes[k..][1..] == bytes[k + 1..];
      data := data * 256 + bytes[k];
    }
    assert bytes[0..] == bytes;
  }

  /** A global item: the globals and the stack in its array. */
  method GlobalItem(g: Globals, stack: array<Globals>, depth: nat, tag: nat, data: nat, ghost it: Item)
    returns (g': Globals, depth': nat)
    requires stack.Length == STACK_DEPTH && depth <= STACK_DEPTH
    requires it == Short(tag, GLOBAL, it.data) && data == Value(it.data)
    modifies stack
    ensures depth' <= STACK_DEPTH
    ensures State(g', stack[..depth']) == Global(State(g, old(stack[..depth])), it, STACK_DEPTH)
  {
    g', depth' := g, depth;
    match tag
    case 0x0 => g' := g.(usagePage := data % 0x1_0000);
    case 0x7 => g' := g.(reportSize := data);
    case 0x8 => g' := g.(reportId := data % 0x100);
    case 0x9 => g' := g.(reportCount := data);
    case 0xa =>
      if depth < stack.Length {
        stack[depth] := g;
        depth' := depth + 1;
      }
    case 0xb =>
      if depth > 0 {
        depth' := depth - 1;
        g' := stack[depth'];
      }
    case _ =>
  }

  /** A main item: its bits go to its report; an application collection is logged. */
  method MainItem(reports: array<Option<Report>>, g: Globals, usage: Option<nat>, tag: nat, data: nat,
                  ghost it: Item, ghost table: seq<Report>)
    returns (collection: seq<(nat, nat)>, ghost table': seq<Report>)
    requires Holds(reports[..], table)
    requires it == Short(tag, MAIN, it.data) && data == Value(it.data)
    modifies reports
    ensures collection == Collection(g, usage, it)
    ensures table' == if Adds(g, it) == [] then table else Add(table, Adds(g, it)[0])
    ensures Holds(reports[..], table')
  {
    collection, table' := [], table;
    var kind := None;
    match tag {
      case 0x8 => kind := Some(Input);
      case 0x9 => kind := Some(Output);
      case 0xb => kind := Some(Feature);
      case 0xa =>
        if data == 0x01 {
          collection := [(g.usagePage, if usage.Some? then usage.value else 0)];
        }
      case _ =>
    }
    if kind.Some? {
      var main := Report(g.reportId, kind.value, (g.reportSize * g.reportCount) % TWO_TO_THE_32, g.usagePage);
      AddMain(reports, main, table);
      table' := Add(table, main);
    }
  }

  /** `log_report_summary`: for any bytes, the table and the collections logged are those of the
      whole items the bytes start with. */
  method LogReportSummary(desc: Bytes) returns (reports: array<Option<Report>>, log: seq<(nat, nat)>)
    ensures Holds(reports[..], Summary(desc))
    ensures log == Collections(START, None, Items(desc))
  {
    hide ToCome, Items, Global, Summary, Collections, Add, ItemLength, Adds, Collection, Holds, From, Value;
    reports := new Option<Report>[MAX_REPORTS](_ => None);
    var g := NO_GLOBALS;
    var stack := new Globals[STACK_DEPTH](_ => NO_GLOBALS);
    var depth: nat := 0;
    var usage: Option<nat> := None;
    log := [];
    ghost var table: seq<Report> := [];
    EmptyTable(reports[..]);
    var i := 0;
    Begin(desc);
    while i < |desc|
      invariant fresh(reports) && fresh(stack) && stack.Length == STACK_DEPTH && depth <= STACK_DEPTH
      invariant Holds(reports[..], table)
      invariant ToCome(desc, i, State(g, stack[..depth]), usage, table, log)
    {
      var prefix := desc[i];
      ghost var s := State(g, stack[..depth]);
      if prefix == LONG_PREFIX {
        var size: nat := if i + 1 < |desc| then desc[i + 1] else 0;
        LongSkipped(desc, i, size, s, usage, table, log);
        i := i + 3 + size;
        continue;
      }
      var size := if prefix % 4 == 3 then 4 else prefix % 4;
      ShortStep(desc, i);
      if i + 1 + size > |desc| {
        assert Items(From(desc, i)) == [];
        Finished(desc, i, s, usage, table, log);
        return;
      }
      var bytes := desc[i + 1..i + 1 + size];
      var data := ReadValue(bytes);
      ghost var it := Short(prefix / 16, prefix / 4 % 4, bytes);
      ItemRead(desc, i, i + 1 + size, s, usage, table, log, it);
      i := i + 1 + size;

      NotGlobal(s, usage, it);
      match prefix / 4 % 4
      case 0 =>
        var collection;
        collection, table := MainItem(reports, g, usage, prefix / 16, data, it, table);
        log := if collection == [] then log else log + collection;
        usage := None;
      case 1 =>
        g, depth := GlobalItem(g, stack, depth, prefix / 16, data, it);
      case 2 =>
        if prefix / 16 == 0x0 && usage.None? {
          usage := Some(data);
        }
      case _ =>
    }
    NothingLeft(desc, i);
    Finished(desc, i, State(g, stack[..depth]), usage, table, log);
  }

  lemma EmptyTable(rows: seq<Option<Report>>)
    requires |rows| == MAX_REPORTS && forall k :: 0 <= k < MAX_REPORTS ==> rows[k] == None
    ensures Holds(rows, [])
  {
  }

  lemma Begin(desc: Bytes)
    ensures ToCome(desc, 0, START, None, [], [])
  {
    assert From(desc, 0) == desc;
  }

  lemma NothingLeft(desc: Bytes, i: nat)
    requires i >= |desc|
    ensures Items(From(desc, i)) == []
  {
  }

  lemma NotGlobal(s: State, usage: Option<nat>, it: Item)
    requires it.Short?
    ensures it.kind != GLOBAL ==> Global(s, it, STACK_DEPTH) == s
    ensures it.kind != MAIN ==> Adds(s.g, it) == [] && Collection(s.g, usage, it) == []
  {
  }

  lemma LongSkipped(desc: Bytes, i: nat, size: nat, s: State, usage: Option<nat>, table: seq<Report>, log: seq<(nat, nat)>)
    requires i < |desc| && desc[i] == LONG_PREFIX && size == (if i + 1 < |desc| then desc[i + 1] else 0)
    requires ToCome(desc, i, s, usage, table, log)
    ensures ToCome(desc, i + 3 + size, s, usage, table, log)
  {
    hide Items, AddAll, Contributions, Summary, Collections, ItemLength;
    var skipped := LongStep(desc, i, size);
    if skipped == [] {
      assert Items(From(desc, i)) == Items(From(desc, i + 3 + size));
    } else {
      assert skipped == [skipped[0]];
      ItemRead(desc, i, i + 3 + size, s, usage, table, log, skipped[0]);
    }
  }

  lemma Finished(desc: Bytes, i: nat, s: State, usage: Option<nat>, table: seq<Report>, log: seq<(nat, nat)>)
    requires ToCome(desc, i, s, usage, table, log) && Items(From(desc, i)) == []
    ensures table == Summary(desc) && log == Collections(START, None, Items(desc))
  {
  }

  // ---- Which feature reports are then read ----

  const USAGE_PAGE_PS_AUTH: nat := 0xfff0
  const FEATURE_BUF_LEN: nat := 256

  predicate IsRead(r: Report) {
    r.kind == Feature && r.id != 0 && r.usagePage != USAGE_PAGE_PS_AUTH
  }

  /** Length asked for: the report's bytes and its id byte, at most the buffer. */
  function RequestLength(r: Report): (n: nat)
    ensures 1 <= n <= FEATURE_BUF_LEN
  {
    var bytes := (r.bits + 7) / 8 + 1;
    if bytes < FEATURE_BUF_LEN then bytes else FEATURE_BUF_LEN
  }

  function FeatureRequests(table: seq<Report>): seq<(nat, nat)> {
    if table == [] then []
    else FeatureRequests(table[..|table| - 1])
         + if IsRead(table[|table| - 1]) then [(table[|table| - 1].id, RequestLength(table[|table| - 1]))] else []
  }

  /** Up to 2032 bits, the id byte and the fewest bytes that hold the report; beyond, all 256. */
  lemma LengthIsLeast(r: Report)
    ensures r.bits > 2032 ==> RequestLength(r) == 256
    ensures 0 < r.bits <= 2032 ==> 8 * (RequestLength(r) - 2) < r.bits <= 8 * (RequestLength(r) - 1)
    ensures r.bits == 0 ==> RequestLength(r) == 1
  {
  }

  /** Rows asked for. */
  function RowsRead(table: seq<Report>): nat {
    if table == [] then 0
    else RowsRead(table[..|table| - 1])
         + if table[|table| - 1].kind == Feature && table[|table| - 1].id != 0 && table[|table| - 1].usagePage != 0xfff0
           then 1 else 0
  }

  /** One request a row asked for, in the order of the rows. */
  lemma {:induction false} RequestsInOrder(table: seq<Report>, i: nat)
    requires i < |table|
    ensures |FeatureRequests(table)| == RowsRead(table) && RowsRead(table[..i]) <= RowsRead(table)
    ensures table[i].kind == Feature && table[i].id != 0 && table[i].usagePage != 0xfff0 ==>
              && RowsRead(table[..i]) < RowsRead(table)
              && FeatureRequests(table)[RowsRead(table[..i])] == (table[i].id, RequestLength(table[i]))
    decreases |table|
  {
    var n := |table| - 1;
    if n == 0 {
      assert table[..0] == [];
    } else {
      RequestsInOrder(table[..n], if i < n then i else 0);
      assert i < n ==> table[..n][..i] == table[..i];
    }
  }

  method ReadFeatureReports(reports: array<Option<Report>>, ghost table: seq<Report>)
    returns (requests: seq<(nat, nat)>)
    requires Holds(reports[..], table)
    ensures requests == FeatureRequests(table)
  {
    requests := [];
    for k := 0 to reports.Length
      invariant requests == FeatureRequests(table[..if k < |table| then k else |table|])
    {
      if k < |table| {
        assert table[..k + 1][..k] == table[..k];
      }
      if reports[k].Some? && reports[k].value.kind == Feature && reports[k].value.id != 0 {
        var r := reports[k].value;
        if r.usagePage == USAGE_PAGE_PS_AUTH {
          continue;
        }
        requests := requests + [(r.id, RequestLength(r))];
      }
    }
    assert table[..|table|] == table;
  }

  predicate Asks(r: Report, q: (nat, nat)) {
    IsRead(r) && q == (r.id, RequestLength(r))
  }

  lemma {:induction false} RequestsAreRows(table: seq<Report>, q: (nat, nat))
    ensures q in FeatureRequests(table) <==> exists i :: 0 <= i < |table| && Asks(table[i], q)
    decreases |table|
  {
    if table == [] {
    } else {
      var n := |table| - 1;
      RequestsAreRows(table[..n], q);
      assert q in FeatureRequests(table) <==> q in FeatureRequests(table[..n]) || Asks(table[n], q);
      hide FeatureRequests, Asks;
      if i :| 0 <= i < n && Asks(table[..n][i], q) {
        assert Asks(table[i], q);
      }
      if i :| 0 <= i < |table| && Asks(table[i], q) {
        assert i < n ==> Asks(table[..n][i], q);
      }
    }
  }

  ghost predicate Requested(table: seq<Report>, id: nat) {
    exists q :: q in FeatureRequests(table) && q.0 == id
  }

  /** The first main item of feature report `id` is not under the authentication usage page. */
  ghost predicate FirstOffAuth(cs: seq<Report>, id: nat) {
    exists j: nat :: FirstOf(cs, j) && KeyOf(cs[j]) == (id, Feature) && cs[j].usagePage != USAGE_PAGE_PS_AUTH
  }

  /** From descriptor bytes to requests: feature report `id` is read exactly when it has an id,
      is among the first 24 reports, and its first main item is not under the authentication
      usage page. */
  lemma ReadIff(desc: Bytes, id: nat)
    ensures var cs := Contributions(START, Items(desc), STACK_DEPTH);
            Requested(Summary(desc), id)
            <==> id != 0 && (id, Feature) in FirstKeys(cs) && FirstOffAuth(cs, id)
  {
    var cs := Contributions(START, Items(desc), STACK_DEPTH);
    SummaryIsAccount(desc);
    ReadOfAccount(Summary(desc), cs, id);
  }

  lemma ReadOfAccount(table: seq<Report>, cs: seq<Report>, id: nat)
    requires Accounts(table, cs)
    ensures Requested(table, id) <==> id != 0 && (id, Feature) in FirstKeys(cs) && FirstOffAuth(cs, id)
  {
    hide FeatureRequests, FirstKeys, TotalBits;
    if Requested(table, id) {
      var q :| q in FeatureRequests(table) && q.0 == id;
      RequestsAreRows(table, q);
      var i :| 0 <= i < |table| && Asks(table[i], q);
      assert RowOk(table, cs, i) && TableKeys(table)[i] == (id, Feature);
    }
    if id != 0 && (id, Feature) in FirstKeys(cs) && FirstOffAuth(cs, id) {
      var i :| 0 <= i < |table| && TableKeys(table)[i] == (id, Feature);
      assert RowOk(table, cs, i);
      var j: nat :| FirstOf(cs, j) && KeyOf(cs[j]) == (id, Feature) && cs[j].usagePage != USAGE_PAGE_PS_AUTH;
      var k: nat :| FirstOf(cs, k) && KeyOf(cs[k]) == KeyOf(table[i]) && cs[k].usagePage == table[i].usagePage;
      assert !(j < k) && !(k < j);
      assert IsRead(table[i]);
      assert Asks(table[i], (table[i].id, RequestLength(table[i])));
      RequestsAreRows(table, (table[i].id, RequestLength(table[i])));
      assert (table[i].id, RequestLength(table[i])) in FeatureRequests(table);
    }
  }
}
