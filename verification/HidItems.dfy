/**
  The items of a HID report descriptor (section 6.2.2 of HID 1.11) and their byte encoding:
  the grammar that src/hid.rs parses by offsets.
 */
module HidItems {
  import opened Common

  /** Item types of a short item. */
  const MAIN: nat := 0
  const GLOBAL: nat := 1
  const LOCAL: nat := 2

  const LONG_PREFIX: byte := 0xfe

  datatype Item =
    | Short(tag: nat, kind: nat, data: Bytes)
    | Long(longTag: byte, data: Bytes)

  /** An item that has an encoding. The short prefix 0xfe is taken by long items. */
  predicate ValidItem(it: Item) {
    match it
    case Short(tag, kind, data) =>
      tag < 16 && kind < 4 && |data| in {0, 1, 2, 4} && !(tag == 15 && kind == 3 && |data| == 2)
    case Long(_, data) => |data| < 256
  }

  predicate ValidItems(items: seq<Item>) {
    forall i :: 0 <= i < |items| ==> ValidItem(items[i])
  }

  function SizeCode(n: nat): nat {
    if n == 4 then 3 else n
  }

  function DataSize(prefix: byte): (n: nat)
    ensures n in {0, 1, 2, 4}
  {
    if prefix % 4 == 3 then 4 else prefix % 4
  }

  function Encode(it: Item): (r: Bytes)
    requires ValidItem(it)
    ensures |r| > 0
  {
    match it
    case Short(tag, kind, data) => [(16 * tag + 4 * kind + SizeCode(|data|)) as byte] + data
    case Long(tag, data) => [LONG_PREFIX, |data| as byte, tag] + data
  }

  function EncodeAll(items: seq<Item>): Bytes
    requires ValidItems(items)
  {
    if items == [] then [] else Encode(items[0]) + EncodeAll(items[1..])
  }

  /** Length of the item that `d` starts with, if it is there as a whole. */
  function ItemLength(d: Bytes): (n: Option<nat>)
    ensures n.Some? ==> 0 < n.value <= |d|
  {
    if d == [] then None
    else if d[0] == LONG_PREFIX then
      if |d| < 3 || |d| - 3 < d[1] then None else Some(3 + d[1] as nat)
    else
      if |d| < 1 + DataSize(d[0]) then None else Some(1 + DataSize(d[0]))
  }

  function Decode(d: Bytes): Item
    requires ItemLength(d).Some?
  {
    if d[0] == LONG_PREFIX then Long(d[2], d[3..3 + d[1] as nat])
    else Short(d[0] / 16, d[0] / 4 % 4, d[1..1 + DataSize(d[0])])
  }

  /** The items `d` consists of, up to the first that is cut off. */
  function Items(d: Bytes): seq<Item>
    decreases |d|
  {
    if ItemLength(d).None? then [] else [Decode(d)] + Items(d[ItemLength(d).value..])
  }

  /** What is left after them. */
  function Rest(d: Bytes): Bytes
    decreases |d|
  {
    if ItemLength(d).None? then d else Rest(d[ItemLength(d).value..])
  }

  lemma DecodeEncoded(it: Item, tail: Bytes)
    requires ValidItem(it)
    ensures ItemLength(Encode(it) + tail) == Some(|Encode(it)|)
    ensures Decode(Encode(it) + tail) == it
  {
    var d := Encode(it) + tail;
    match it
    case Short(tag, kind, data) =>
      assert d[1..1 + |data|] == data;
    case Long(_, data) =>
      assert d[3..3 + |data|] == data;
  }

  lemma EncodeDecoded(d: Bytes)
    requires ItemLength(d).Some?
    ensures ValidItem(Decode(d)) && Encode(Decode(d)) == d[..ItemLength(d).value]
  {
    var n := ItemLength(d).value;
    if d[0] == LONG_PREFIX {
      assert d[..n] == [d[0], d[1], d[2]] + d[3..n];
    } else {
      assert d[..n] == [d[0]] + d[1..n];
    }
  }

  /** The grammar is unambiguous: whatever follows, encoded items are read back as they were. */
  lemma {:induction false} ItemsOfEncoded(items: seq<Item>, tail: Bytes)
    requires ValidItems(items)
    ensures Items(EncodeAll(items) + tail) == items + Items(tail)
    decreases |items|
  {
    hide Encode, Decode, ItemLength;
    if items == [] {
      assert EncodeAll(items) + tail == tail;
    } else {
      var it, more := items[0], EncodeAll(items[1..]) + tail;
      var d := EncodeAll(items) + tail;
      assert d == Encode(it) + more;
      DecodeEncoded(it, more);
      assert d[|Encode(it)|..] == more;
      ItemsOfEncoded(items[1..], tail);
    }
  }

  lemma EncodeFirst(it: Item, more: seq<Item>)
    requires ValidItem(it) && ValidItems(more)
    ensures ValidItems([it] + more) && EncodeAll([it] + more) == Encode(it) + EncodeAll(more)
  {
    assert ([it] + more)[1..] == more;
  }

  lemma ItemsFirst(d: Bytes)
    ensures ItemLength(d).Some? ==>
              && Items(d) == [Decode(d)] + Items(d[ItemLength(d).value..])
              && Rest(d) == Rest(d[ItemLength(d).value..])
    ensures ItemLength(d).None? ==> Items(d) == [] && Rest(d) == d
  {
  }

  /** Every byte string is its items, encoded, and a rest that starts with no whole item. */
  lemma {:induction false} ItemsAndRest(d: Bytes)
    ensures ValidItems(Items(d)) && EncodeAll(Items(d)) + Rest(d) == d && ItemLength(Rest(d)).None?
    decreases |d|
  {
    hide Encode, Decode, ItemLength, ValidItem, EncodeAll, Items, Rest;
    ItemsFirst(d);
    if ItemLength(d).None? {
      NothingEncoded();
    } else {
      var n := ItemLength(d).value;
      ItemsAndRest(d[n..]);
      EncodeDecoded(d);
      EncodeFirst(Decode(d), Items(d[n..]));
      assert d == d[..n] + (EncodeAll(Items(d[n..])) + Rest(d[n..]));
    }
  }

  lemma NothingEncoded()
    ensures EncodeAll([]) == []
  {
  }

  /** So the items read are the longest list of whole items that `d` starts with. */
  lemma LongestPrefix(d: Bytes, items: seq<Item>)
    requires ValidItems(items) && EncodeAll(items) <= d
    ensures items <= Items(d)
  {
    ItemsOfEncoded(items, d[|EncodeAll(items)|..]);
    assert EncodeAll(items) + d[|EncodeAll(items)|..] == d;
  }

  lemma RoundTrip(items: seq<Item>)
    requires ValidItems(items)
    ensures Items(EncodeAll(items)) == items && Rest(EncodeAll(items)) == []
  {
    var d := EncodeAll(items);
    ItemsOfEncoded(items, []);
    assert d + [] == d;
    ItemsAndRest(d);
  }
}
