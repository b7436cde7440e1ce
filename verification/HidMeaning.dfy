/**
  What the numbers in a report summary mean, said of the items themselves: which Report Size,
  Report Count, Report ID and Usage Page a main item takes, and which Usage a collection
  (sections 6.2.2.4, 6.2.2.7 and 6.2.2.8 of HID 1.11).
 */
module HidMeaning {
  import opened Common
  import opened HidItems
  import opened HidReports
  import opened HidParser

  // ---- Item data ----

  function Power256(k: nat): nat {
    if k == 0 then 1 else 256 * Power256(k - 1)
  }

  /** Byte `k` counts `256^k`. */
  function Positional(data: Bytes): nat {
    if data == [] then 0
    else Positional(data[..|data| - 1]) + data[|data| - 1] * Power256(|data| - 1)
  }

  lemma {:induction false} ValueGrows(data: Bytes, b: byte)
    ensures Value(data + [b]) == Value(data) + b * Power256(|data|)
    decreases |data|
  {
    if data == [] {
      assert (data + [b])[1..] == [];
    } else {
      assert (data + [b])[1..] == data[1..] + [b];
      ValueGrows(data[1..], b);
    }
  }

  lemma {:induction false} PositionalIsValue(data: Bytes)
    ensures Positional(data) == Value(data)
    decreases |data|
  {
    if data == [] {
    } else {
      var n := |data| - 1;
      PositionalIsValue(data[..n]);
      ValueGrows(data[..n], data[n]);
      assert data == data[..n] + [data[n]];
    }
  }

  // ---- Nesting ----

  function StateAt(items: seq<Item>, n: nat, limit: nat): State
    requires n <= |items|
  {
    Globally(START, items[..n], limit)
  }

  lemma StateNext(items: seq<Item>, n: nat, limit: nat)
    requires n < |items|
    ensures StateAt(items, n + 1, limit) == Global(StateAt(items, n, limit), items[n], limit)
  {
    hide Globally, Global;
    assert items[..n + 1] == items[..n] + [items[n]];
    GloballyAppend(START, items[..n], [items[n]], limit);
    OneItem(StateAt(items, n, limit), items[n], limit);
  }

  /** Open pushes after the first `n` items; those beyond the limit, and pops of none, are lost. */
  function Depth(items: seq<Item>, n: nat, limit: nat): nat
    requires n <= |items|
  {
    if n == 0 then 0
    else
      var d := Depth(items, n - 1, limit);
      if IsPush(items[n - 1]) && d < limit then d + 1
      else if IsPop(items[n - 1]) && d > 0 then d - 1
      else d
  }

  lemma {:induction false} DepthIsStack(items: seq<Item>, n: nat, limit: nat)
    requires n <= |items|
    ensures |StateAt(items, n, limit).stack| == Depth(items, n, limit)
    decreases n
  {
    if n == 0 {
      assert items[..0] == [];
    } else {
      DepthIsStack(items, n - 1, limit);
      StateNext(items, n - 1, limit);
    }
  }

  // ---- The last item of a kind ----

  predicate Sets(it: Item, tag: nat) {
    it.Short? && it.kind == 1 && it.tag == tag
  }

  /** What item `j` set is still in effect after `n` items: the pushes open then were not popped. */
  ghost predicate Survives(items: seq<Item>, j: nat, n: nat, limit: nat) {
    && j < n <= |items|
    && forall k :: j + 1 <= k <= n ==> Depth(items, k, limit) >= Depth(items, j + 1, limit)
  }

  ghost predicate NoneAfter(items: seq<Item>, from: nat, n: nat, limit: nat, tag: nat) {
    n <= |items| && forall k :: from <= k < n && Sets(items[k], tag) ==> !Survives(items, k, n, limit)
  }

  ghost predicate IsLastSetter(items: seq<Item>, j: nat, n: nat, limit: nat, tag: nat) {
    j < n <= |items| && Sets(items[j], tag) && Survives(items, j, n, limit) && NoneAfter(items, j + 1, n, limit, tag)
  }

  /** Usage pages have 16 bits and report ids 8. */
  function Kept(tag: nat, v: nat): nat {
    if tag == 0x0 then v % 0x1_0000 else if tag == 0x8 then v % 0x100 else v
  }

  /** `v` is what the last item with this tag that is still in effect set; 0 if there is none. */
  ghost predicate LastIs(items: seq<Item>, n: nat, limit: nat, tag: nat, v: nat) {
    || (v == 0 && NoneAfter(items, 0, n, limit, tag))
    || exists j: nat :: IsLastSetter(items, j, n, limit, tag) && v == Kept(tag, Positional(items[j].data))
  }

  lemma LastIsUnique(items: seq<Item>, n: nat, limit: nat, tag: nat, v: nat, w: nat)
    requires LastIs(items, n, limit, tag, v) && LastIs(items, n, limit, tag, w)
    ensures v == w
  {
    hide Survives, Kept, Positional, Sets;
    if j: nat :| IsLastSetter(items, j, n, limit, tag) && v == Kept(tag, Positional(items[j].data)) {
      var i: nat :| IsLastSetter(items, i, n, limit, tag) && w == Kept(tag, Positional(items[i].data));
      assert i == j;
    }
  }

  function Field(g: Globals, tag: nat): nat {
    if tag == 0x0 then g.usagePage
    else if tag == 0x7 then g.reportSize
    else if tag == 0x8 then g.reportId
    else g.reportCount
  }

  predicate IsField(tag: nat) {
    tag in {0x0, 0x7, 0x8, 0x9}
  }

  /** Where an entry of the stack was pushed. */
  lemma {:induction false} Pushed(items: seq<Item>, n: nat, limit: nat, m: nat) returns (p: nat)
    requires n <= |items| && m < Depth(items, n, limit)
    ensures p < n && IsPush(items[p]) && Depth(items, p, limit) == m
    ensures forall k :: p < k <= n ==> Depth(items, k, limit) > m
    ensures |StateAt(items, n, limit).stack| > m && StateAt(items, n, limit).stack[m] == StateAt(items, p, limit).g
    decreases n
  {
    hide StateAt;
    DepthIsStack(items, n, limit);
    DepthIsStack(items, n - 1, limit);
    StateNext(items, n - 1, limit);
    if m < Depth(items, n - 1, limit) {
      p := Pushed(items, n - 1, limit, m);
    } else {
      p := n - 1;
    }
  }

  /** An item that is neither a pop nor sets the field leaves it as it was. */
  lemma FieldStays(s: State, it: Item, limit: nat, tag: nat)
    requires IsField(tag)
    ensures Sets(it, tag) ==> Field(Global(s, it, limit).g, tag) == Kept(tag, Value(it.data))
    ensures !Sets(it, tag) && !IsPop(it) ==> Field(Global(s, it, limit).g, tag) == Field(s.g, tag)
    ensures IsPop(it) && |s.stack| > 0 ==> Global(s, it, limit).g == s.stack[|s.stack| - 1]
    ensures IsPop(it) && |s.stack| == 0 ==> Global(s, it, limit) == s
  {
  }

  /** Without a pop below it, what is in effect stays in effect. */
  lemma SurvivesOn(items: seq<Item>, j: nat, p: nat, n: nat, limit: nat)
    requires j < p <= n <= |items|
    requires forall k :: p <= k <= n ==> Depth(items, k, limit) >= Depth(items, p, limit)
    ensures Survives(items, j, p, limit) <==> Survives(items, j, n, limit)
  {
  }

  /** `n` items leave the same items in effect as the first `p` of them if those between set
      nothing that is still in effect. */
  lemma LastStays(items: seq<Item>, p: nat, n: nat, limit: nat, tag: nat, v: nat)
    requires p <= n <= |items| && LastIs(items, p, limit, tag, v)
    requires forall k :: p <= k <= n ==> Depth(items, k, limit) >= Depth(items, p, limit)
    requires NoneAfter(items, p, n, limit, tag)
    ensures LastIs(items, n, limit, tag, v)
  {
    hide Survives, Kept, Positional, Depth, Sets;
    forall j: nat | j < p
      ensures Survives(items, j, p, limit) <==> Survives(items, j, n, limit)
    {
      SurvivesOn(items, j, p, n, limit);
    }
    if j: nat :| IsLastSetter(items, j, p, limit, tag) && v == Kept(tag, Positional(items[j].data)) {
      assert IsLastSetter(items, j, n, limit, tag);
    } else {
      assert NoneAfter(items, 0, n, limit, tag);
    }
  }

  lemma NotInEffect(items: seq<Item>, p: nat, n: nat, limit: nat, tag: nat)
    requires p < n <= |items| && IsPush(items[p]) && IsField(tag)
    requires forall k :: p < k < n ==> Depth(items, k, limit) > Depth(items, n, limit)
    requires IsPop(items[n - 1])
    ensures NoneAfter(items, p, n, limit, tag)
  {
    hide Depth;
    forall k | p <= k < n && Sets(items[k], tag)
      ensures !Survives(items, k, n, limit)
    {
      assert k != p && k != n - 1;
      assert Depth(items, k + 1, limit) > Depth(items, n, limit);
    }
  }

  lemma SetsIt(items: seq<Item>, n: nat, limit: nat, tag: nat)
    requires 0 < n <= |items| && Sets(items[n - 1], tag)
    ensures LastIs(items, n, limit, tag, Kept(tag, Positional(items[n - 1].data)))
  {
    hide Depth, Kept, Positional;
    assert IsLastSetter(items, n - 1, n, limit, tag);
  }

  /** The globals after any items: each field as the last item in effect set it. */
  lemma {:induction false} GlobalsAre(items: seq<Item>, n: nat, limit: nat, tag: nat)
    requires n <= |items| && IsField(tag)
    ensures LastIs(items, n, limit, tag, Field(StateAt(items, n, limit).g, tag))
    decreases n
  {
    hide StateAt, LastIs, NoneAfter, Survives, Global, Sets, Kept, Field, Positional, Value;
    if n == 0 {
      NothingSet(items, limit, tag);
    } else {
      var it, before := items[n - 1], StateAt(items, n - 1, limit);
      StateNext(items, n - 1, limit);
      FieldStays(before, it, limit, tag);
      DepthIsStack(items, n - 1, limit);
      if Sets(it, tag) {
        PositionalIsValue(it.data);
        SetsIt(items, n, limit, tag);
      } else if IsPop(it) && |before.stack| > 0 {
        var p := Pushed(items, n - 1, limit, |before.stack| - 1);
        GlobalsAre(items, p, limit, tag);
        NotInEffect(items, p, n, limit, tag);
        LastStays(items, p, n, limit, tag, Field(StateAt(items, p, limit).g, tag));
      } else {
        GlobalsAre(items, n - 1, limit, tag);
        NotSetByLast(items, n, limit, tag);
        LastStays(items, n - 1, n, limit, tag, Field(before.g, tag));
      }
    }
  }

  lemma NothingSet(items: seq<Item>, limit: nat, tag: nat)
    requires IsField(tag)
    ensures LastIs(items, 0, limit, tag, Field(StateAt(items, 0, limit).g, tag))
  {
    assert items[..0] == [];
  }

  lemma NotSetByLast(items: seq<Item>, n: nat, limit: nat, tag: nat)
    requires 0 < n <= |items| && !Sets(items[n - 1], tag)
    ensures NoneAfter(items, n - 1, n, limit, tag)
  {
  }

  // ---- Main items ----

  lemma {:induction false} ContributionsAppend(s: State, a: seq<Item>, b: seq<Item>, limit: nat)
    ensures Contributions(s, a + b, limit) == Contributions(s, a, limit) + Contributions(Globally(s, a, limit), b, limit)
    decreases |a|
  {
    hide Adds, Global;
    if a == [] {
      assert a + b == b;
    } else {
      assert (a + b)[1..] == a[1..] + b;
      ContributionsAppend(Global(s, a[0], limit), a[1..], b, limit);
    }
  }

  /** What a main item adds to the reports, wherever it stands: an input (tag 8), output (tag 9)
      or feature (tag 11) item adds Report Size times Report Count bits, modulo 2^32, to the
      report of the last Report ID, under the last Usage Page; other items add nothing. */
  lemma MainItemAdds(items: seq<Item>, n: nat, limit: nat, size: nat, count: nat, id: nat, page: nat)
    requires n < |items|
    requires LastIs(items, n, limit, 0x7, size) && LastIs(items, n, limit, 0x9, count)
    requires LastIs(items, n, limit, 0x8, id) && LastIs(items, n, limit, 0x0, page)
    ensures var it := items[n];
            Contributions(START, items[..n + 1], limit)
            == Contributions(START, items[..n], limit)
               + if it.Short? && it.kind == 0 && it.tag in {8, 9, 11} then
                   [Report(id, if it.tag == 8 then Input else if it.tag == 9 then Output else Feature,
                           (size * count) % 0x1_0000_0000, page)]
                 else []
  {
    hide LastIs, Globally, Contributions;
    var g := StateAt(items, n, limit).g;
    GlobalsAre(items, n, limit, 0x7);
    GlobalsAre(items, n, limit, 0x9);
    GlobalsAre(items, n, limit, 0x8);
    GlobalsAre(items, n, limit, 0x0);
    LastIsUnique(items, n, limit, 0x7, size, g.reportSize);
    LastIsUnique(items, n, limit, 0x9, count, g.reportCount);
    LastIsUnique(items, n, limit, 0x8, id, g.reportId);
    LastIsUnique(items, n, limit, 0x0, page, g.usagePage);
    assert items[..n + 1] == items[..n] + [items[n]];
    ContributionsAppend(START, items[..n], [items[n]], limit);
    OneAdds(StateAt(items, n, limit), items[n], limit);
  }

  lemma OneAdds(s: State, it: Item, limit: nat)
    ensures Contributions(s, [it], limit) == Adds(s.g, it)
  {
    assert [it][1..] == [];
  }

  // ---- Collections ----

  predicate IsMain(it: Item) {
    it.Short? && it.kind == 0
  }

  predicate IsUsage(it: Item) {
    it.Short? && it.kind == 2 && it.tag == 0
  }

  predicate NoMainAfter(items: seq<Item>, j: nat, n: nat) {
    n <= |items| && forall k :: j < k < n ==> !IsMain(items[k])
  }

  /** `u` is the first Usage since the last main item before item `n`. */
  ghost predicate FirstUsage(items: seq<Item>, n: nat, u: Option<nat>) {
    && n <= |items|
    && (u.None? ==> forall j :: 0 <= j < n && IsUsage(items[j]) ==> !NoMainAfter(items, j, n))
    && (u.Some? ==>
          exists j :: 0 <= j < n && IsUsage(items[j]) && u.value == Positional(items[j].data) && NoMainAfter(items, j, n)
                      && forall i :: 0 <= i < j && IsUsage(items[i]) ==> !NoMainAfter(items, i, n))
  }

  function UsageAfter(usage: Option<nat>, items: seq<Item>): Option<nat>
    decreases |items|
  {
    if items == [] then usage else UsageAfter(NextUsage(usage, items[0]), items[1..])
  }

  lemma {:induction false} UsageAfterNext(usage: Option<nat>, items: seq<Item>, it: Item)
    ensures UsageAfter(usage, items + [it]) == NextUsage(UsageAfter(usage, items), it)
    decreases |items|
  {
    if items == [] {
      assert (items + [it])[1..] == [];
    } else {
      assert (items + [it])[1..] == items[1..] + [it];
      UsageAfterNext(NextUsage(usage, items[0]), items[1..], it);
    }
  }

  lemma MainClears(items: seq<Item>, n: nat)
    requires 0 < n <= |items|
    ensures IsMain(items[n - 1]) ==> forall j :: 0 <= j < n - 1 ==> !NoMainAfter(items, j, n)
    ensures !IsMain(items[n - 1]) ==> forall j :: 0 <= j < n - 1 ==> (NoMainAfter(items, j, n) <==> NoMainAfter(items, j, n - 1))
    ensures NoMainAfter(items, n - 1, n)
  {
  }

  lemma {:induction false} UsageIsFirst(items: seq<Item>, n: nat)
    requires n <= |items|
    ensures FirstUsage(items, n, UsageAfter(None, items[..n]))
    decreases n
  {
    hide UsageAfter, NoMainAfter, Positional, Value;
    if n == 0 {
      assert items[..0] == [];
      NoUsage();
    } else {
      var it, u := items[n - 1], UsageAfter(None, items[..n - 1]);
      UsageIsFirst(items, n - 1);
      assert items[..n] == items[..n - 1] + [it];
      UsageAfterNext(None, items[..n - 1], it);
      MainClears(items, n);
      if it.Short? {
        PositionalIsValue(it.data);
      }
    }
  }

  lemma NoUsage()
    ensures UsageAfter(None, []) == None
  {
  }

  lemma {:induction false} CollectionsAppend(s: State, usage: Option<nat>, a: seq<Item>, it: Item)
    ensures Collections(s, usage, a + [it])
            == Collections(s, usage, a) + Collection(Globally(s, a, STACK_DEPTH).g, UsageAfter(usage, a), it)
    decreases |a|
  {
    hide Collection, Global, NextUsage;
    if a == [] {
      assert (a + [it])[1..] == [];
    } else {
      assert (a + [it])[1..] == a[1..] + [it];
      CollectionsAppend(Global(s, a[0], STACK_DEPTH), NextUsage(usage, a[0]), a[1..], it);
    }
  }

  /** What is logged of collections: an application collection (main item tag 10, data 1), and
      nothing else, with the last Usage Page and the first Usage since the main item before. */
  lemma CollectionLogged(items: seq<Item>, n: nat, page: nat, usage: Option<nat>)
    requires n < |items| && LastIs(items, n, STACK_DEPTH, 0x0, page) && FirstUsage(items, n, usage)
    ensures var it := items[n];
            Collections(START, None, items[..n + 1])
            == Collections(START, None, items[..n])
               + if it.Short? && it.kind == 0 && it.tag == 10 && Positional(it.data) == 1
                 then [(page, if usage.Some? then usage.value else 0)] else []
  {
    hide LastIs, FirstUsage, Globally, Collections, UsageAfter, Positional, Value;
    GlobalsAre(items, n, STACK_DEPTH, 0x0);
    LastIsUnique(items, n, STACK_DEPTH, 0x0, page, StateAt(items, n, STACK_DEPTH).g.usagePage);
    UsageIsFirst(items, n);
    FirstUsageUnique(items, n, usage, UsageAfter(None, items[..n]));
    assert items[..n + 1] == items[..n] + [items[n]];
    CollectionsAppend(START, None, items[..n], items[n]);
    if items[n].Short? {
      PositionalIsValue(items[n].data);
    }
  }

  lemma FirstUsageUnique(items: seq<Item>, n: nat, u: Option<nat>, v: Option<nat>)
    requires FirstUsage(items, n, u) && FirstUsage(items, n, v)
    ensures u == v
  {
    hide NoMainAfter, Positional, IsUsage;
  }

  // ---- From bytes ----

  /** The size code in a prefix: 0, 1, 2 or 3 for 0, 1, 2 or 4 bytes of data. */
  function Code(n: nat): nat {
    if n == 4 then 3 else n
  }

  /** A report of one main item, in bytes: Report Size, Report Count and Report ID items of any
      data size, and an input, output or feature item give one row. */
  lemma OneMainItem(size: Bytes, count: Bytes, id: byte, tag: nat, flags: byte)
    requires |size| in {0, 1, 2, 4} && |count| in {0, 1, 2, 4} && tag in {8, 9, 11}
    ensures Summary([(0x74 + Code(|size|)) as byte] + size + [(0x94 + Code(|count|)) as byte] + count
                    + [0x85, id, (16 * tag + 1) as byte, flags])
            == [Report(id, if tag == 8 then Input else if tag == 9 then Output else Feature,
                       (Positional(size) * Positional(count)) % 0x1_0000_0000, 0)]
  {
    hide Summary, Contributions, EncodeAll, Positional, Value, ValidItem;
    var a, b := Short(7, GLOBAL, size), Short(9, GLOBAL, count);
    var c, d := Short(8, GLOBAL, [id]), Short(tag, MAIN, [flags]);
    FourBytes(a, b, c, d, size, count, id, tag, flags);
    SummaryOfEncoded([a, b, c, d]);
    PositionalIsValue(size);
    PositionalIsValue(count);
    FourContribute(a, b, c, d, size, count, id, tag, flags);
    OneContribution(Contributions(START, [a, b, c, d], STACK_DEPTH)[0]);
  }

  lemma EncodedShort(it: Item)
    requires it.Short? && it.tag in {7, 8, 9, 11} && it.kind in {0, 1} && |it.data| in {0, 1, 2, 4}
    ensures ValidItem(it) && Encode(it) == [(16 * it.tag + 4 * it.kind + Code(|it.data|)) as byte] + it.data
  {
  }

  lemma FourBytes(a: Item, b: Item, c: Item, d: Item, size: Bytes, count: Bytes, id: byte, tag: nat, flags: byte)
    requires |size| in {0, 1, 2, 4} && |count| in {0, 1, 2, 4} && tag in {8, 9, 11}
    requires a == Short(7, GLOBAL, size) && b == Short(9, GLOBAL, count)
    requires c == Short(8, GLOBAL, [id]) && d == Short(tag, MAIN, [flags])
    ensures ValidItems([a, b, c, d])
    ensures EncodeAll([a, b, c, d])
            == [(0x74 + Code(|size|)) as byte] + size + [(0x94 + Code(|count|)) as byte] + count
               + [0x85, id, (16 * tag + 1) as byte, flags]
  {
    hide EncodeAll, Encode, ValidItem;
    NothingEncoded();
    EncodedShort(a);
    EncodedShort(b);
    EncodedShort(c);
    EncodedShort(d);
    EncodeFirst(d, []);
    assert [d] + [] == [d] && [c] + [d] == [c, d] && [b] + [c, d] == [b, c, d] && [a] + [b, c, d] == [a, b, c, d];
    EncodeFirst(c, [d]);
    EncodeFirst(b, [c, d]);
    EncodeFirst(a, [b, c, d]);
  }

  lemma FourContribute(a: Item, b: Item, c: Item, d: Item, size: Bytes, count: Bytes, id: byte, tag: nat, flags: byte)
    requires tag in {8, 9, 11}
    requires a == Short(7, GLOBAL, size) && b == Short(9, GLOBAL, count)
    requires c == Short(8, GLOBAL, [id]) && d == Short(tag, MAIN, [flags])
    ensures Contributions(START, [a, b, c, d], STACK_DEPTH)
            == [Report(id, if tag == 8 then Input else if tag == 9 then Output else Feature,
                       (Value(size) * Value(count)) % 0x1_0000_0000, 0)]
  {
    hide Contributions;
    assert Value([id]) == id by {
      PositionalIsValue([id]);
      OneByte(id);
    }
    assert [c] + [d] == [c, d] && [b] + [c, d] == [b, c, d] && [a] + [b, c, d] == [a, b, c, d];
    var g1 := NO_GLOBALS.(reportSize := Value(size));
    var g2 := g1.(reportCount := Value(count));
    Unfold(START, a, [b, c, d], STACK_DEPTH);
    Unfold(State(g1, []), b, [c, d], STACK_DEPTH);
    Unfold(State(g2, []), c, [d], STACK_DEPTH);
    OneAdds(State(g2.(reportId := id), []), d, STACK_DEPTH);
  }

  lemma OneByte(b: byte)
    ensures Positional([b]) == b
  {
    assert [b][..0] == [];
  }

  /** A long item (prefix 0xfe, data size, tag) is passed over. */
  lemma LongItemSkipped(tag: byte, data: Bytes, rest: Bytes)
    requires |data| < 256
    ensures Summary([0xfe, |data| as byte, tag] + data + rest) == Summary(rest)
  {
    hide Items, Contributions;
    var d := [0xfe, |data| as byte, tag] + data + rest;
    ItemsFirst(d);
    assert d[3 + |data|..] == rest;
    Unfold(START, Decode(d), Items(rest), STACK_DEPTH);
    var cs := Contributions(START, Items(rest), STACK_DEPTH);
    assert [] + cs == cs;
  }
}
