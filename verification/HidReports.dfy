/**
  What a report descriptor says about report sizes (`log_report_summary` in src/hid.rs):
  an interpreter over its items, and an independent account of the table it builds.
 */
module HidReports {
  import opened Common
  import opened HidItems

  const MAX_REPORTS: nat := 24
  const STACK_DEPTH: nat := 4
  const TWO_TO_THE_32: nat := 0x1_0000_0000

  datatype Kind = Input | Output | Feature

  datatype Report = Report(id: nat, kind: Kind, bits: nat, usagePage: nat)

  datatype Globals = Globals(usagePage: nat, reportSize: nat, reportCount: nat, reportId: nat)

  const NO_GLOBALS: Globals := Globals(0, 0, 0, 0)

  /** Little-endian value of an item's data. */
  function Value(data: Bytes): nat {
    if data == [] then 0 else data[0] + 256 * Value(data[1..])
  }

  // ---- Global state ----

  datatype State = State(g: Globals, stack: seq<Globals>)

  const START: State := State(NO_GLOBALS, [])

  predicate IsPush(it: Item) {
    it.Short? && it.kind == GLOBAL && it.tag == 0xa
  }

  predicate IsPop(it: Item) {
    it.Short? && it.kind == GLOBAL && it.tag == 0xb
  }

  /** One global item, with room for `limit` pushes; items that do not fit are ignored. */
  function Global(s: State, it: Item, limit: nat): State {
    if !it.Short? || it.kind != GLOBAL then s
    else if it.tag == 0x0 then s.(g := s.g.(usagePage := Value(it.data) % 0x1_0000))
    else if it.tag == 0x7 then s.(g := s.g.(reportSize := Value(it.data)))
    else if it.tag == 0x8 then s.(g := s.g.(reportId := Value(it.data) % 0x100))
    else if it.tag == 0x9 then s.(g := s.g.(reportCount := Value(it.data)))
    else if it.tag == 0xa then
      if |s.stack| < limit then s.(stack := s.stack + [s.g]) else s
    else if it.tag == 0xb then
      if |s.stack| > 0 then State(s.stack[|s.stack| - 1], s.stack[..|s.stack| - 1]) else s
    else s
  }

  function Globally(s: State, items: seq<Item>, limit: nat): State
    decreases |items|
  {
    if items == [] then s else Globally(Global(s, items[0], limit), items[1..], limit)
  }

  // ---- Main items ----

  function MainKind(tag: nat): Option<Kind> {
    if tag == 0x8 then Some(Input)
    else if tag == 0x9 then Some(Output)
    else if tag == 0xb then Some(Feature)
    else None
  }

  /** What one item adds to the reports: nothing, or the bits of a main item. */
  function Adds(g: Globals, it: Item): seq<Report> {
    if it.Short? && it.kind == MAIN && MainKind(it.tag).Some? then
      [Report(g.reportId, MainKind(it.tag).value, (g.reportSize * g.reportCount) % TWO_TO_THE_32, g.usagePage)]
    else []
  }

  /** The contributions of the main items of a descriptor, in order. */
  function Contributions(s: State, items: seq<Item>, limit: nat): seq<Report>
    decreases |items|
  {
    if items == [] then []
    else Adds(s.g, items[0]) + Contributions(Global(s, items[0], limit), items[1..], limit)
  }

  // ---- The table ----

  predicate SameReport(r: Report, id: nat, kind: Kind) {
    r.id == id && r.kind == kind
  }

  function Find(table: seq<Report>, id: nat, kind: Kind): (i: nat)
    ensures i <= |table|
    ensures i < |table| ==> SameReport(table[i], id, kind)
    ensures forall j :: 0 <= j < i ==> !SameReport(table[j], id, kind)
  {
    if table == [] then 0
    else if SameReport(table[0], id, kind) then 0
    else 1 + Find(table[1..], id, kind)
  }

  /** A contribution goes to its report, to a new one, or nowhere when the table is full. */
  function Add(table: seq<Report>, c: Report): seq<Report> {
    var i := Find(table, c.id, c.kind);
    if i < |table| then table[i := table[i].(bits := (table[i].bits + c.bits) % TWO_TO_THE_32)]
    else if |table| < MAX_REPORTS then table + [c]
    else table
  }

  function AddAll(table: seq<Report>, cs: seq<Report>): seq<Report>
    decreases |cs|
  {
    if cs == [] then table else Add(AddAll(table, cs[..|cs| - 1]), cs[|cs| - 1])
  }

  /** The summary of a descriptor: its whole items, interpreted. */
  function Summary(desc: Bytes): seq<Report> {
    AddAll([], Contributions(START, Items(desc), STACK_DEPTH))
  }

  // ---- An account of the table without running it ----

  type Key = (nat, Kind)

  function KeyOf(r: Report): Key {
    (r.id, r.kind)
  }

  /** The distinct keys in order of first appearance. */
  function Keys(cs: seq<Report>): seq<Key> {
    if cs == [] then []
    else
      var before := Keys(cs[..|cs| - 1]);
      if KeyOf(cs[|cs| - 1]) in before then before else before + [KeyOf(cs[|cs| - 1])]
  }

  /** Bits of all contributions with key `k`. */
  function TotalBits(cs: seq<Report>, k: Key): nat {
    if cs == [] then 0
    else TotalBits(cs[..|cs| - 1], k) + if KeyOf(cs[|cs| - 1]) == k then cs[|cs| - 1].bits else 0
  }

  /** `c` is the first contribution with its key. */
  ghost predicate FirstOf(cs: seq<Report>, i: nat) {
    i < |cs| && forall j :: 0 <= j < i ==> KeyOf(cs[j]) != KeyOf(cs[i])
  }

  predicate Distinct(ks: seq<Key>) {
    forall i, j :: 0 <= i < j < |ks| ==> ks[i] != ks[j]
  }

  /** The first 24 of them. */
  function FirstKeys(cs: seq<Report>): seq<Key> {
    var ks := Keys(cs);
    if |ks| <= 24 then ks else ks[..24]
  }

  lemma {:induction false} KeysAreDistinct(cs: seq<Report>)
    ensures Distinct(Keys(cs))
    ensures forall k :: k in Keys(cs) <==> exists i :: 0 <= i < |cs| && KeyOf(cs[i]) == k
    decreases |cs|
  {
    if cs == [] {
    } else {
      var n := |cs| - 1;
      KeysAreDistinct(cs[..n]);
      forall k
        ensures k in Keys(cs) <==> exists i :: 0 <= i < |cs| && KeyOf(cs[i]) == k
      {
        if k in Keys(cs[..n]) {
          var i :| 0 <= i < n && KeyOf(cs[..n][i]) == k;
          assert KeyOf(cs[i]) == k;
        }
        if i :| 0 <= i < |cs| && KeyOf(cs[i]) == k {
          assert i < n ==> KeyOf(cs[..n][i]) == k;
        }
      }
    }
  }

  /** Row `i` of the table agrees with the account of `cs`. */
  ghost predicate RowOk(table: seq<Report>, cs: seq<Report>, i: nat)
    requires i < |table|
  {
    && table[i].bits == TotalBits(cs, KeyOf(table[i])) % TWO_TO_THE_32
    && exists j: nat :: FirstOf(cs, j) && KeyOf(cs[j]) == KeyOf(table[i]) && cs[j].usagePage == table[i].usagePage
  }

  predicate BitsFit(cs: seq<Report>) {
    forall i :: 0 <= i < |cs| ==> cs[i].bits < TWO_TO_THE_32
  }

  function TableKeys(table: seq<Report>): (ks: seq<Key>)
    ensures |ks| == |table| && forall i :: 0 <= i < |table| ==> ks[i] == KeyOf(table[i])
  {
    seq(|table|, i requires 0 <= i < |table| => KeyOf(table[i]))
  }

  /** The table built from `cs` is the account of `cs`. */
  ghost predicate Accounts(table: seq<Report>, cs: seq<Report>) {
    && TableKeys(table) == FirstKeys(cs)
    && forall i :: 0 <= i < |table| ==> RowOk(table, cs, i)
  }

  lemma {:induction false} FirstStays(cs: seq<Report>, c: Report, j: nat)
    requires FirstOf(cs, j)
    ensures FirstOf(cs + [c], j) && (cs + [c])[j] == cs[j]
  {
  }

  lemma {:induction false} NoBits(cs: seq<Report>, k: Key)
    requires k !in Keys(cs)
    ensures TotalBits(cs, k) == 0 && forall j :: 0 <= j < |cs| ==> KeyOf(cs[j]) != k
    decreases |cs|
  {
    if cs == [] {
    } else {
      NoBits(cs[..|cs| - 1], k);
      assert forall j :: 0 <= j < |cs| - 1 ==> cs[..|cs| - 1][j] == cs[j];
    }
  }

  lemma AddMod(a: nat, b: nat)
    ensures (a % TWO_TO_THE_32 + b) % TWO_TO_THE_32 == (a + b) % TWO_TO_THE_32
  {
  }

  /** A row that `c` does not belong to. */
  lemma {:induction false} OtherRow(table: seq<Report>, t: seq<Report>, cs: seq<Report>, c: Report, i: nat)
    requires i < |table| && i < |t| && t[i] == table[i] && RowOk(table, cs, i) && KeyOf(c) != KeyOf(table[i])
    ensures RowOk(t, cs + [c], i)
  {
    assert (cs + [c])[..|cs|] == cs;
    var j: nat :| FirstOf(cs, j) && KeyOf(cs[j]) == KeyOf(table[i]) && cs[j].usagePage == table[i].usagePage;
    FirstStays(cs, c, j);
  }

  /** The row that `c` is added to. */
  lemma {:induction false} AddedRow(table: seq<Report>, cs: seq<Report>, c: Report, i: nat)
    requires i < |table| && RowOk(table, cs, i) && KeyOf(c) == KeyOf(table[i])
    ensures RowOk(table[i := table[i].(bits := (table[i].bits + c.bits) % TWO_TO_THE_32)], cs + [c], i)
  {
    assert (cs + [c])[..|cs|] == cs;
    AddMod(TotalBits(cs, KeyOf(c)), c.bits);
    var j: nat :| FirstOf(cs, j) && KeyOf(cs[j]) == KeyOf(table[i]) && cs[j].usagePage == table[i].usagePage;
    FirstStays(cs, c, j);
  }

  lemma Small(b: nat)
    requires b < TWO_TO_THE_32
    ensures b % TWO_TO_THE_32 == b
  {
  }

  lemma {:induction false} NewTotal(cs: seq<Report>, c: Report)
    requires KeyOf(c) !in Keys(cs) && c.bits < TWO_TO_THE_32
    ensures TotalBits(cs + [c], KeyOf(c)) % TWO_TO_THE_32 == c.bits && FirstOf(cs + [c], |cs|)
  {
    assert (cs + [c])[..|cs|] == cs;
    NoBits(cs, KeyOf(c));
    Small(c.bits);
  }

  /** The row that `c` starts. */
  lemma {:induction false} NewRow(table: seq<Report>, cs: seq<Report>, c: Report)
    requires KeyOf(c) !in Keys(cs) && c.bits < TWO_TO_THE_32
    ensures RowOk(table + [c], cs + [c], |table|)
  {
    hide TotalBits, FirstOf, Keys;
    NewTotal(cs, c);
    assert (table + [c])[|table|] == c && (cs + [c])[|cs|] == c;
  }

  lemma {:induction false} AddToRow(table: seq<Report>, cs: seq<Report>, c: Report, at: nat)
    requires Accounts(table, cs) && Distinct(Keys(cs)) && at < |table| && KeyOf(c) == KeyOf(table[at])
    ensures Accounts(table[at := table[at].(bits := (table[at].bits + c.bits) % TWO_TO_THE_32)], cs + [c])
  {
    hide RowOk, TotalBits;
    var t := table[at := table[at].(bits := (table[at].bits + c.bits) % TWO_TO_THE_32)];
    assert (cs + [c])[..|cs|] == cs;
    assert TableKeys(table)[at] == Keys(cs)[at] == KeyOf(c);
    assert TableKeys(t) == TableKeys(table);
    AddedRow(table, cs, c, at);
    forall i | 0 <= i < |t|
      ensures RowOk(t, cs + [c], i)
    {
      if i != at {
        assert TableKeys(table)[i] == Keys(cs)[i] != Keys(cs)[at];
        OtherRow(table, t, cs, c, i);
      }
    }
  }

  lemma {:induction false} AddNew(table: seq<Report>, cs: seq<Report>, c: Report)
    requires Accounts(table, cs) && c.bits < TWO_TO_THE_32
    requires forall i :: 0 <= i < |table| ==> KeyOf(table[i]) != KeyOf(c)
    ensures Accounts(if |table| < MAX_REPORTS then table + [c] else table, cs + [c])
  {
    hide RowOk, TotalBits;
    var t := if |table| < MAX_REPORTS then table + [c] else table;
    assert (cs + [c])[..|cs|] == cs;
    if |table| < MAX_REPORTS {
      assert Keys(cs) == TableKeys(table);
      NewRow(table, cs, c);
      assert TableKeys(t) == TableKeys(table) + [KeyOf(c)];
    }
    forall i | 0 <= i < |table|
      ensures RowOk(t, cs + [c], i)
    {
      OtherRow(table, t, cs, c, i);
    }
  }

  lemma {:induction false} AddStep(table: seq<Report>, cs: seq<Report>, c: Report)
    requires Accounts(table, cs) && c.bits < TWO_TO_THE_32
    ensures Accounts(Add(table, c), cs + [c])
  {
    hide Accounts;
    KeysAreDistinct(cs);
    var at := Find(table, c.id, c.kind);
    if at < |table| {
      AddToRow(table, cs, c, at);
    } else {
      AddNew(table, cs, c);
    }
  }

  /** The table holds the first 24 distinct (id, kind) pairs in order of first appearance,
      each with the sum of its main items' bits (modulo 2^32) and the first one's usage page. */
  lemma {:induction false} TableIsAccount(cs: seq<Report>)
    requires BitsFit(cs)
    ensures Accounts(AddAll([], cs), cs) && Distinct(TableKeys(AddAll([], cs)))
    decreases |cs|
  {
    hide RowOk;
    KeysAreDistinct(cs);
    if cs == [] {
    } else {
      var n := |cs| - 1;
      TableIsAccount(cs[..n]);
      AddStep(AddAll([], cs[..n]), cs[..n], cs[n]);
      assert cs[..n] + [cs[n]] == cs;
    }
  }

  lemma {:induction false} ContributionsFit(s: State, items: seq<Item>, limit: nat)
    ensures BitsFit(Contributions(s, items, limit))
    decreases |items|
  {
    if items == [] {
    } else {
      ContributionsFit(Global(s, items[0], limit), items[1..], limit);
    }
  }

  /** For any bytes: the summary accounts for the main items of the whole items they start with. */
  lemma SummaryIsAccount(desc: Bytes)
    ensures Accounts(Summary(desc), Contributions(START, Items(desc), STACK_DEPTH))
    ensures Distinct(TableKeys(Summary(desc))) && |Summary(desc)| <= MAX_REPORTS
  {
    ContributionsFit(START, Items(desc), STACK_DEPTH);
    TableIsAccount(Contributions(START, Items(desc), STACK_DEPTH));
  }

  /** The summary of encoded items is the one of the items themselves. */
  lemma SummaryOfEncoded(items: seq<Item>)
    requires ValidItems(items)
    ensures Summary(EncodeAll(items)) == AddAll([], Contributions(START, items, STACK_DEPTH))
  {
    RoundTrip(items);
  }

  // ---- Push and pop ----

  /** Nesting of pushes never exceeds `limit` from a stack of `depth`; a pop of an empty
      stack is ignored. */
  predicate NestsWithin(depth: nat, items: seq<Item>, limit: nat)
    decreases |items|
  {
    || items == []
    || if IsPush(items[0]) then depth < limit && NestsWithin(depth + 1, items[1..], limit)
       else NestsWithin(if IsPop(items[0]) && depth > 0 then depth - 1 else depth, items[1..], limit)
  }

  /** A stack of `limit` entries agrees with any larger one as long as it is not overrun. */
  lemma {:induction false} BoundedStackAgrees(s: State, items: seq<Item>, limit: nat, more: nat)
    requires |s.stack| <= limit <= more && NestsWithin(|s.stack|, items, limit)
    ensures Contributions(s, items, limit) == Contributions(s, items, more)
    ensures Globally(s, items, limit) == Globally(s, items, more)
    decreases |items|
  {
    if items == [] {
    } else {
      BoundedStackAgrees(Global(s, items[0], limit), items[1..], limit, more);
    }
  }

  /** Every pop matches a push in `items` or one of `open` pushes before, and all are popped. */
  predicate Balanced(items: seq<Item>, open: nat)
    decreases |items|
  {
    if items == [] then open == 0
    else if IsPush(items[0]) then Balanced(items[1..], open + 1)
    else if IsPop(items[0]) then open > 0 && Balanced(items[1..], open - 1)
    else Balanced(items[1..], open)
  }

  lemma {:induction false} BalancedLeavesStack(s: State, base: seq<Globals>, items: seq<Item>, limit: nat)
    requires base <= s.stack && Balanced(items, |s.stack| - |base|) && NestsWithin(|s.stack|, items, limit)
    ensures Globally(s, items, limit).stack == base
    decreases |items|
  {
    if items == [] {
    } else {
      BalancedLeavesStack(Global(s, items[0], limit), base, items[1..], limit);
    }
  }

  lemma {:induction false} GloballyAppend(s: State, a: seq<Item>, b: seq<Item>, limit: nat)
    ensures Globally(s, a + b, limit) == Globally(Globally(s, a, limit), b, limit)
    decreases |a|
  {
    if a == [] {
      assert a + b == b;
    } else {
      assert (a + b)[1..] == a[1..] + b;
      GloballyAppend(Global(s, a[0], limit), a[1..], b, limit);
    }
  }

  lemma {:induction false} BalancedThenPop(items: seq<Item>, pop: Item, open: nat)
    requires Balanced(items, open) && IsPop(pop)
    ensures Balanced(items + [pop], open + 1)
    decreases |items|
  {
    if items == [] {
      assert (items + [pop])[1..] == [];
    } else {
      assert (items + [pop])[1..] == items[1..] + [pop];
      BalancedThenPop(items[1..], pop, if IsPush(items[0]) then open + 1 else if IsPop(items[0]) then open - 1 else open);
    }
  }

  lemma {:induction false} NestsThenPop(depth: nat, items: seq<Item>, pop: Item, limit: nat)
    requires IsPop(pop)
    ensures NestsWithin(depth, items + [pop], limit) <==> NestsWithin(depth, items, limit)
    decreases |items|
  {
    if items == [] {
      assert (items + [pop])[1..] == [];
    } else {
      assert (items + [pop])[1..] == items[1..] + [pop];
      NestsThenPop(if IsPush(items[0]) then depth + 1 else if IsPop(items[0]) && depth > 0 then depth - 1 else depth,
                   items[1..], pop, limit);
    }
  }

  /** A stack that lost a push stays below the nesting, and ends below its base. */
  lemma {:induction false} LostStaysLost(s: State, items: seq<Item>, base: nat, open: nat, limit: nat)
    requires base > 0 && Balanced(items, open) && |s.stack| < base + open
    ensures |Globally(s, items, limit).stack| < base
    decreases |items|
  {
    if items == [] {
      assert open == 0;
    } else {
      var next := if IsPush(items[0]) then open + 1 else if IsPop(items[0]) then open - 1 else open;
      LostStaysLost(Global(s, items[0], limit), items[1..], base, next, limit);
    }
  }

  lemma {:induction false} OverrunEndsBelow(s: State, items: seq<Item>, base: nat, open: nat, limit: nat)
    requires base > 0 && Balanced(items, open) && |s.stack| == base + open <= limit
    requires !NestsWithin(|s.stack|, items, limit)
    ensures |Globally(s, items, limit).stack| < base
    decreases |items|
  {
    if IsPush(items[0]) && |s.stack| == limit {
      LostStaysLost(s, items[1..], base, open + 1, limit);
    } else {
      var next := if IsPush(items[0]) then open + 1 else if IsPop(items[0]) then open - 1 else open;
      OverrunEndsBelow(Global(s, items[0], limit), items[1..], base, next, limit);
    }
  }

  /** A matched pop restores exactly the globals of its push, whatever items are between. */
  lemma MatchedPopRestores(s: State, push: Item, items: seq<Item>, pop: Item, limit: nat)
    requires IsPush(push) && IsPop(pop) && Balanced(items, 0)
    requires |s.stack| < limit && NestsWithin(|s.stack| + 1, items, limit)
    ensures Globally(s, [push] + items + [pop], limit) == s
  {
    var inside := Global(s, push, limit);
    BalancedLeavesStack(inside, inside.stack, items, limit);
    hide Globally, Balanced, NestsWithin;
    assert [push] + items + [pop] == [push] + (items + [pop]);
    GloballyAppend(s, [push], items + [pop], limit);
    GloballyAppend(inside, items, [pop], limit);
    OneItem(s, push, limit);
    OneItem(Globally(inside, items, limit), pop, limit);
  }

  lemma OneItem(s: State, it: Item, limit: nat)
    ensures Globally(s, [it], limit) == Global(s, it, limit)
  {
    assert [it][1..] == [];
  }

  /** With anything on the stack, a matched pop restores the state of its push if and only if
      the nesting stays within the limit. */
  lemma MatchedPopRestoresIff(s: State, push: Item, items: seq<Item>, pop: Item, limit: nat)
    requires IsPush(push) && IsPop(pop) && Balanced(items, 0) && 0 < |s.stack| <= limit
    ensures Globally(s, [push] + items + [pop], limit) == s
            <==> NestsWithin(|s.stack|, [push] + items + [pop], limit)
  {
    hide Globally;
    var all := [push] + items + [pop];
    assert all[0] == push && all[1..] == items + [pop];
    BalancedThenPop(items, pop, 0);
    NestsThenPop(|s.stack| + 1, items, pop, limit);
    if NestsWithin(|s.stack|, all, limit) {
      MatchedPopRestores(s, push, items, pop, limit);
    } else {
      OverrunEndsBelow(s, all, |s.stack|, 0, limit);
    }
  }

  const PUSH: Item := Short(0xa, GLOBAL, [])
  const POP: Item := Short(0xb, GLOBAL, [])

  function Copies<T>(x: T, n: nat): (r: seq<T>)
    ensures |r| == n && forall i :: 0 <= i < n ==> r[i] == x
  {
    seq(n, i => x)
  }

  lemma FirstCopy(it: Item, n: nat, more: seq<Item>)
    requires n > 0
    ensures (Copies(it, n) + more)[0] == it && (Copies(it, n) + more)[1..] == Copies(it, n - 1) + more
  {
  }

  lemma Unfold(s: State, it: Item, more: seq<Item>, limit: nat)
    ensures Contributions(s, [it] + more, limit) == Adds(s.g, it) + Contributions(Global(s, it, limit), more, limit)
    ensures Globally(s, [it] + more, limit) == Globally(Global(s, it, limit), more, limit)
  {
    assert ([it] + more)[1..] == more;
  }

  lemma PushOnce(g: Globals, k: nat, limit: nat)
    requires k <= limit
    ensures Global(State(g, Copies(g, k)), PUSH, limit) == State(g, Copies(g, Min(k + 1, limit))) && Adds(g, PUSH) == []
  {
    assert Copies(g, k) + [g] == Copies(g, k + 1);
  }

  /** Pushes beyond the limit are lost. */
  lemma {:induction false} Pushes(g: Globals, k: nat, n: nat, more: seq<Item>, limit: nat)
    requires k <= limit
    ensures var s, t := State(g, Copies(g, k)), State(g, Copies(g, Min(k + n, limit)));
            && Globally(s, Copies(PUSH, n) + more, limit) == Globally(t, more, limit)
            && Contributions(s, Copies(PUSH, n) + more, limit) == Contributions(t, more, limit)
    decreases n
  {
    hide Globally, Contributions, Global, Adds;
    if n == 0 {
      assert Copies(PUSH, n) + more == more;
    } else {
      assert Copies(PUSH, n) + more == [PUSH] + (Copies(PUSH, n - 1) + more);
      Unfold(State(g, Copies(g, k)), PUSH, Copies(PUSH, n - 1) + more, limit);
      PushOnce(g, k, limit);
      Pushes(g, Min(k + 1, limit), n - 1, more, limit);
    }
  }

  /** And pops of an empty stack are ignored. */
  lemma {:induction false} Pops(g: Globals, k: nat, n: nat, limit: nat)
    ensures Globally(State(g, Copies(g, k)), Copies(POP, n), limit) == State(g, Copies(g, k - Min(k, n)))
    decreases n
  {
    if n == 0 {
      assert Copies(POP, n) == [];
    } else {
      FirstCopy(POP, n, []);
      assert Copies(POP, n) + [] == Copies(POP, n) && Copies(POP, n - 1) + [] == Copies(POP, n - 1);
      Pops(g, k - Min(k, 1), n - 1, limit);
      assert k > 0 ==> Copies(g, k)[..k - 1] == Copies(g, k - 1);
    }
  }

  lemma {:induction false} PushesNest(k: nat, n: nat, more: seq<Item>, limit: nat)
    ensures NestsWithin(k, Copies(PUSH, n) + more, limit)
            <==> (n == 0 || k + n <= limit) && NestsWithin(k + n, more, limit)
    ensures Balanced(Copies(PUSH, n) + more, k) <==> Balanced(more, k + n)
    decreases n
  {
    if n == 0 {
      assert Copies(PUSH, n) + more == more;
    } else {
      FirstCopy(PUSH, n, more);
      PushesNest(k + 1, n - 1, more, limit);
    }
  }

  lemma {:induction false} PopsNest(n: nat, limit: nat)
    ensures NestsWithin(n, Copies(POP, n), limit) && Balanced(Copies(POP, n), n)
    decreases n
  {
    if n == 0 {
      assert Copies(POP, n) == [];
    } else {
      FirstCopy(POP, n, []);
      assert Copies(POP, n) + [] == Copies(POP, n) && Copies(POP, n - 1) + [] == Copies(POP, n - 1);
      PopsNest(n - 1, limit);
    }
  }

  /** On an empty stack the nesting is enough but not needed: any number of pushes followed by as
      many pops leaves the globals right, because the pops that lost their push are ignored. */
  lemma EmptyStackForgives(g: Globals, n: nat, limit: nat)
    ensures var items := Copies(PUSH, n) + Copies(POP, n);
            && Balanced(items, 0)
            && (NestsWithin(0, items, limit) <==> n <= limit)
            && Globally(State(g, []), items, limit) == State(g, [])
  {
    hide Globally, Balanced, NestsWithin, Contributions;
    assert Copies(g, 0) == [];
    Pushes(g, 0, n, Copies(POP, n), limit);
    PushesNest(0, n, Copies(POP, n), limit);
    Pops(g, Min(n, limit), n, limit);
    PopsNest(n, limit);
  }

  // ---- A descriptor that is misread ----

  const COUNT_ONE: Item := Short(0x9, GLOBAL, [1])
  const SIZE_EIGHT: Item := Short(0x7, GLOBAL, [8])
  const DATA_INPUT: Item := Short(0x8, MAIN, [2])

  function Overrun(): seq<Item> {
    [COUNT_ONE] + (Copies(PUSH, 4) + [SIZE_EIGHT, PUSH, POP, DATA_INPUT])
  }

  /** The same as bytes: one 8-bit input behind a fifth push and its pop. */
  const OVERRUN: Bytes := [0x95, 0x01, 0xa4, 0xa4, 0xa4, 0xa4, 0x75, 0x08, 0xa4, 0xb4, 0x81, 0x02]

  lemma OverrunSteps(one: Globals, eight: Globals, four: seq<Globals>, limit: nat)
    requires one == Globals(0, 0, 1, 0) && eight == Globals(0, 8, 1, 0) && four == Copies(one, 4) && limit >= 4
    ensures Global(START, COUNT_ONE, limit) == State(one, Copies(one, 0)) && Adds(START.g, COUNT_ONE) == []
    ensures Global(State(one, four), SIZE_EIGHT, limit) == State(eight, four) && Adds(one, SIZE_EIGHT) == []
    ensures Global(State(eight, four), PUSH, limit) == State(eight, if limit == 4 then four else four + [eight])
    ensures Global(State(eight, four), POP, limit) == State(one, four[..3])
    ensures Global(State(eight, four + [eight]), POP, limit) == State(eight, four)
    ensures Adds(eight, PUSH) == Adds(eight, POP) == []
    ensures Adds(one, DATA_INPUT) == [Report(0, Input, 0, 0)] && Adds(eight, DATA_INPUT) == [Report(0, Input, 8, 0)]
  {
    assert Value([1]) == 1 && Value([8]) == 8;
    assert Copies(one, 0) == [] && (four + [eight])[..4] == four;
  }

  lemma OverrunContributes(limit: nat)
    requires limit >= 4
    ensures Contributions(START, Overrun(), limit) == [Report(0, Input, if limit == 4 then 0 else 8, 0)]
  {
    hide Contributions, Globally, Global, Adds;
    var tail := [SIZE_EIGHT, PUSH, POP, DATA_INPUT];
    var one := Globals(0, 0, 1, 0);
    var eight := Globals(0, 8, 1, 0);
    var four := Copies(one, 4);
    OverrunSteps(one, eight, four, limit);
    Unfold(START, COUNT_ONE, Copies(PUSH, 4) + tail, limit);
    Pushes(one, 0, 4, tail, limit);
    assert tail == [SIZE_EIGHT] + [PUSH, POP, DATA_INPUT];
    Unfold(State(one, four), SIZE_EIGHT, [PUSH, POP, DATA_INPUT], limit);
    assert [PUSH, POP, DATA_INPUT] == [PUSH] + [POP, DATA_INPUT];
    Unfold(State(eight, four), PUSH, [POP, DATA_INPUT], limit);
    assert [POP, DATA_INPUT] == [POP] + [DATA_INPUT];
    if limit == 4 {
      Unfold(State(eight, four), POP, [DATA_INPUT], limit);
      LastInput(State(one, four[..3]), limit);
    } else {
      Unfold(State(eight, four + [eight]), POP, [DATA_INPUT], limit);
      LastInput(State(eight, four), limit);
    }
  }

  lemma LastInput(s: State, limit: nat)
    ensures Contributions(s, [DATA_INPUT], limit) == Adds(s.g, DATA_INPUT)
  {
    assert [DATA_INPUT][1..] == [];
  }

  lemma EncodedItems()
    ensures ValidItem(PUSH) && ValidItem(POP) && ValidItem(COUNT_ONE) && ValidItem(SIZE_EIGHT) && ValidItem(DATA_INPUT)
    ensures Encode(COUNT_ONE) == [0x95, 0x01] && Encode(PUSH) == [0xa4] && Encode(SIZE_EIGHT) == [0x75, 0x08]
    ensures Encode(POP) == [0xb4] && Encode(DATA_INPUT) == [0x81, 0x02]
  {
  }

  lemma OverrunBytes()
    ensures ValidItems(Overrun()) && EncodeAll(Overrun()) == OVERRUN
  {
    hide EncodeAll, ValidItem, Encode;
    EncodedItems();
    NothingEncoded();
    EncodeFirst(DATA_INPUT, []);
    assert [DATA_INPUT] + [] == [DATA_INPUT];
    EncodeFirst(POP, [DATA_INPUT]);
    EncodeFirst(PUSH, [POP, DATA_INPUT]);
    var tail := [SIZE_EIGHT, PUSH, POP, DATA_INPUT];
    assert [POP, DATA_INPUT] == [POP] + [DATA_INPUT] && [PUSH, POP, DATA_INPUT] == [PUSH] + [POP, DATA_INPUT];
    assert tail == [SIZE_EIGHT] + [PUSH, POP, DATA_INPUT];
    EncodeFirst(SIZE_EIGHT, [PUSH, POP, DATA_INPUT]);
    assert EncodeAll(tail) == [0x75, 0x08, 0xa4, 0xb4, 0x81, 0x02];
    EncodeFirst(PUSH, tail);
    EncodeFirst(PUSH, [PUSH] + tail);
    EncodeFirst(PUSH, [PUSH] + ([PUSH] + tail));
    EncodeFirst(PUSH, [PUSH] + ([PUSH] + ([PUSH] + tail)));
    assert Copies(PUSH, 4) + tail == [PUSH] + ([PUSH] + ([PUSH] + ([PUSH] + tail)));
    assert EncodeAll(Copies(PUSH, 4) + tail) == [0xa4, 0xa4, 0xa4, 0xa4, 0x75, 0x08, 0xa4, 0xb4, 0x81, 0x02];
    EncodeFirst(COUNT_ONE, Copies(PUSH, 4) + tail);
  }

  /** Beyond the limit the parser does misread: the fifth push is lost, its pop takes the globals
      of the fourth, and the input that follows is counted with 0 bits instead of 8. */
  lemma OverrunIsMisread()
    ensures ValidItems(Overrun()) && EncodeAll(Overrun()) == OVERRUN
    ensures Summary(OVERRUN) == [Report(0, Input, 0, 0)]
    ensures AddAll([], Contributions(START, Items(OVERRUN), STACK_DEPTH + 1)) == [Report(0, Input, 8, 0)]
  {
    hide Contributions, Items, Overrun;
    OverrunBytes();
    RoundTrip(Overrun());
    OverrunContributes(STACK_DEPTH);
    OverrunContributes(STACK_DEPTH + 1);
    OneContribution(Report(0, Input, 0, 0));
    OneContribution(Report(0, Input, 8, 0));
  }

  lemma OneContribution(c: Report)
    ensures AddAll([], [c]) == [c]
  {
    assert [c][..0] == [];
  }
}
