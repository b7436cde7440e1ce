/**
  The translation of the wheel's 30-byte input report (c272) into the 64-byte report of the
  PlayStation-mode wheel (c269), src/input_map.rs.
 */
module InputMap {

  const C272_LEN: nat := 30
  const C269_LEN: nat := 64

  /** Pairs of a bit in the source byte and a bit in the target byte. */
  type BitMap = seq<(bv8, bv8)>

  // A, X, B, Y.
  const FACE: BitMap := [(0x10, 0x20), (0x20, 0x10), (0x40, 0x40), (0x80, 0x80)]

  // The paddles, RT, LT, View, Menu, RSB, LSB.
  const SHOULDER: BitMap :=
    [(0x01, 0x02), (0x02, 0x01), (0x04, 0x08), (0x08, 0x04), (0x10, 0x10), (0x20, 0x20), (0x40, 0x80), (0x80, 0x40)]

  // The rotary encoders.
  const ROTARY: BitMap := [(0x02, 0x04), (0x04, 0x02), (0x08, 0x01), (0x10, 0x10), (0x20, 0x08), (0x40, 0x20)]

  const XBOX_BUTTON: bv8 := 0x80
  const PS_BUTTON: bv8 := 0x01
  const REPORT_ID: bv8 := 0x01
  const HAT_NEUTRAL: bv8 := 0x08
  const STICK_CENTRE: bv8 := 0x80

  // ---- Bits ----

  predicate SingleBit(b: bv8) {
    b != 0 && b & (b - 1) == 0
  }

  predicate Has(b: bv8, bit: bv8) {
    b & bit != 0
  }

  function Mask(b: bv8, mask: bv8): bv8 {
    b & mask
  }

  function Or(a: bv8, b: bv8): bv8 {
    a | b
  }

  lemma OrHas(a: bv8, b: bv8, bit: bv8)
    ensures Has(Or(a, b), bit) <==> Has(a, bit) || Has(b, bit)
  {
  }

  lemma OrLaws(a: bv8, b: bv8, c: bv8)
    ensures Or(Or(a, b), c) == Or(a, Or(b, c))
    ensures Or(a, b) == Or(b, a) && Or(c, c) == c
  {
  }

  lemma OrShuffle(a: bv8, b: bv8, x: bv8)
    ensures Or(Or(a, b), x) == Or(Or(a, x), Or(b, x)) == Or(Or(a, x), b) == Or(a, Or(b, x))
  {
    hide Or;
    OrLaws(a, b, x);
    OrLaws(a, x, b);
    OrLaws(b, x, x);
    OrLaws(Or(a, x), b, x);
    OrLaws(Or(a, b), x, x);
  }

  lemma Nothing(b: bv8)
    ensures Or(b, 0) == b && !Has(0, b) && Mask(b, 0) == 0
  {
  }

  lemma SingleBits(x: bv8, y: bv8)
    requires SingleBit(x) && SingleBit(y)
    ensures Has(x, y) <==> x == y
  {
  }

  lemma MaskOr(b: bv8, mask: bv8, bit: bv8)
    ensures Mask(b, Or(mask, bit)) == Or(Mask(b, mask), Mask(b, bit))
    ensures Mask(Mask(b, Or(mask, bit)), mask) == Mask(b, mask)
    ensures Has(Mask(b, Or(mask, bit)), bit) <==> Has(b, bit)
  {
  }

  lemma MaskBit(b: bv8, bit: bv8)
    requires SingleBit(bit)
    ensures Mask(b, bit) == if Has(b, bit) then bit else 0
  {
  }

  // ---- Bit maps ----

  /** Single bits, no source and no target twice. */
  predicate OneToOne(pairs: BitMap) {
    && (forall i :: 0 <= i < |pairs| ==> SingleBit(pairs[i].0) && SingleBit(pairs[i].1))
    && (forall i, j :: 0 <= i < j < |pairs| ==> pairs[i].0 != pairs[j].0 && pairs[i].1 != pairs[j].1)
  }

  function Swapped(pairs: BitMap): (r: BitMap)
    ensures |r| == |pairs| && forall i :: 0 <= i < |r| ==> r[i] == (pairs[i].1, pairs[i].0)
  {
    seq(|pairs|, i requires 0 <= i < |pairs| => (pairs[i].1, pairs[i].0))
  }

  /** All sources of a map. */
  function Sources(pairs: BitMap): bv8 {
    if pairs == [] then 0 else Or(Sources(pairs[..|pairs| - 1]), pairs[|pairs| - 1].0)
  }

  /** The targets of the sources that are set. */
  function Remap(b: bv8, pairs: BitMap): bv8 {
    if pairs == [] then 0
    else
      var (source, target) := pairs[|pairs| - 1];
      var r := Remap(b, pairs[..|pairs| - 1]);
      if Has(b, source) then Or(r, target) else r
  }

  lemma {:induction false} RemapDistributes(a: bv8, b: bv8, pairs: BitMap)
    ensures Remap(Or(a, b), pairs) == Or(Remap(a, pairs), Remap(b, pairs))
  {
    hide Has, Or;
    if pairs == [] {
      Nothing(0);
    } else {
      var before, last := pairs[..|pairs| - 1], pairs[|pairs| - 1];
      RemapDistributes(a, b, before);
      OrHas(a, b, last.0);
      OrShuffle(Remap(a, before), Remap(b, before), last.1);
    }
  }

  lemma {:induction false} RemapMisses(b: bv8, pairs: BitMap, bit: bv8)
    requires SingleBit(bit)
    requires forall i :: 0 <= i < |pairs| ==> SingleBit(pairs[i].1) && pairs[i].1 != bit
    ensures !Has(Remap(b, pairs), bit)
  {
    hide Has, SingleBit, Or;
    if pairs == [] {
      Nothing(bit);
    } else {
      var before, last := pairs[..|pairs| - 1], pairs[|pairs| - 1];
      RemapMisses(b, before, bit);
      OrHas(Remap(b, before), last.1, bit);
      SingleBits(last.1, bit);
    }
  }

  /** A target is set exactly when its source is. */
  lemma {:induction false} RemapBit(b: bv8, pairs: BitMap, k: nat)
    requires OneToOne(pairs) && k < |pairs|
    ensures Has(Remap(b, pairs), pairs[k].1) <==> Has(b, pairs[k].0)
  {
    hide Has, SingleBit, Or;
    var before, last := pairs[..|pairs| - 1], pairs[|pairs| - 1];
    OrHas(Remap(b, before), last.1, pairs[k].1);
    SingleBits(last.1, pairs[k].1);
    if k < |before| {
      RemapBit(b, before, k);
    } else {
      RemapMisses(b, before, last.1);
    }
  }

  lemma {:induction false} RemapBackUpTo(b: bv8, pairs: BitMap, n: nat)
    requires OneToOne(pairs) && n <= |pairs|
    ensures Remap(Remap(b, pairs), Swapped(pairs[..n])) == Mask(b, Sources(pairs[..n]))
  {
    hide Has, SingleBit, Mask, Or;
    if n == 0 {
      Nothing(b);
    } else {
      var some, all := pairs[..n - 1], pairs[..n];
      RemapBackUpTo(b, pairs, n - 1);
      assert all[..n - 1] == some && Swapped(all)[..n - 1] == Swapped(some);
      RemapBit(b, pairs, n - 1);
      MaskOr(b, Sources(some), pairs[n - 1].0);
      MaskBit(b, pairs[n - 1].0);
      Nothing(Mask(b, Sources(some)));
    }
  }

  /** With the pairs swapped, the same function undoes the map on the bits it has. */
  lemma RemapInverse(b: bv8, pairs: BitMap)
    requires OneToOne(pairs)
    ensures Remap(Remap(b, pairs), Swapped(pairs)) == Mask(b, Sources(pairs))
  {
    hide Mask, SingleBit, Remap;
    RemapBackUpTo(b, pairs, |pairs|);
    assert pairs[..|pairs|] == pairs;
  }

  /** Nothing but the mapped bits matters. */
  lemma {:induction false} RemapOfMapped(a: bv8, b: bv8, pairs: BitMap)
    requires Mask(a, Sources(pairs)) == Mask(b, Sources(pairs))
    ensures Remap(a, pairs) == Remap(b, pairs)
  {
    hide Has, Mask, Or;
    if pairs == [] {
    } else {
      var before, last := pairs[..|pairs| - 1], pairs[|pairs| - 1];
      MaskOr(a, Sources(before), last.0);
      MaskOr(b, Sources(before), last.0);
      RemapOfMapped(a, b, before);
    }
  }

  /** Two bytes look the same behind the map exactly when their mapped bits are the same. */
  lemma RemapSameIff(a: bv8, b: bv8, pairs: BitMap)
    requires OneToOne(pairs)
    ensures Remap(a, pairs) == Remap(b, pairs) <==> Mask(a, Sources(pairs)) == Mask(b, Sources(pairs))
  {
    hide Mask, SingleBit, Remap, OneToOne;
    RemapInverse(a, pairs);
    RemapInverse(b, pairs);
    if Mask(a, Sources(pairs)) == Mask(b, Sources(pairs)) {
      RemapOfMapped(a, b, pairs);
    }
  }

  // ---- Reports ----

  /** Byte `i` of the report before the wheel's first: everything released, wheel centred. */
  function NeutralByte(i: nat): bv8 {
    if i == 0 then REPORT_ID
    else if 1 <= i <= 4 then STICK_CENTRE
    else if i == 5 then HAT_NEUTRAL
    else if i == 44 then 0x80
    else if 45 <= i <= 50 || i == 52 || i == 53 then 0xff
    else 0
  }

  function Low(v: bv16): bv8 {
    (v & 0xff) as bv8
  }

  function High(v: bv16): bv8 {
    (v >> 8) as bv8
  }

  /** Little-endian. */
  function Word(low: bv8, high: bv8): bv16 {
    (low as bv16) | ((high as bv16) << 8)
  }

  function Inverted(b: bv8): bv8 {
    0xff - b
  }

  function InvertedWord(v: bv16): bv16 {
    0xffff - v
  }

  /** The two bytes from `i` on. */
  function Axis(report: seq<bv8>, i: nat): bv16
    requires i + 1 < |report|
  {
    Word(report[i], report[i + 1])
  }

  lemma WordBytes(low: bv8, high: bv8)
    ensures Low(Word(low, high)) == low && High(Word(low, high)) == high
    ensures Low(InvertedWord(Word(low, high))) == Inverted(low) && High(InvertedWord(Word(low, high))) == Inverted(high)
  {
  }

  /** Byte `i` of the translation of `src`. */
  function TranslatedByte(src: seq<bv8>, i: nat): bv8
    requires |src| == C272_LEN
  {
    if i == 5 then Or(Mask(src[0], 0x0f), Remap(src[0], FACE))
    else if i == 6 then Remap(src[1], SHOULDER)
    else if i == 7 then if Has(src[3], XBOX_BUTTON) then PS_BUTTON else NeutralByte(7)
    else if i == 54 then Remap(src[3], ROTARY)
    else if i == 43 || i == 44 then src[i - 39]
    else if 45 <= i <= 50 then Inverted(src[i - 39])
    else NeutralByte(i)
  }

  function Translated(src: seq<bv8>): (r: seq<bv8>)
    requires |src| == C272_LEN
    ensures |r| == C269_LEN && forall i :: 0 <= i < C269_LEN ==> r[i] == TranslatedByte(src, i)
  {
    seq(C269_LEN, i requires 0 <= i < C269_LEN => TranslatedByte(src, i))
  }

  method Neutral() returns (r: array<bv8>)
    ensures fresh(r) && r.Length == C269_LEN
    ensures forall i :: 0 <= i < C269_LEN ==> r[i] == NeutralByte(i)
  {
    r := new bv8[C269_LEN](i => 0);
    r[0] := REPORT_ID;
    r[1], r[2], r[3], r[4] := STICK_CENTRE, STICK_CENTRE, STICK_CENTRE, STICK_CENTRE;
    r[5] := HAT_NEUTRAL;
    r[44] := 0x80;
    var i := 45;
    while i < 51
      invariant 45 <= i <= 51
      invariant forall k :: 45 <= k < i ==> r[k] == 0xff
      invariant forall k :: 0 <= k < 45 ==> r[k] == NeutralByte(k)
      invariant forall k :: i <= k < C269_LEN ==> r[k] == 0
    {
      r[i] := 0xff;
      i := i + 1;
    }
    r[52] := 0xff;
    r[53] := 0xff;
  }

  method Translate(src: array<bv8>) returns (r: array<bv8>)
    requires src.Length == C272_LEN
    ensures fresh(r) && r.Length == C269_LEN
    ensures r[..] == Translated(src[..])
  {
    hide Remap, Or, Has, Mask, Inverted, NeutralByte;
    r := Neutral();
    Buttons(src, r);
    r[43], r[44] := src[4], src[5];
    Pedals(src, r);
    forall i | 0 <= i < C269_LEN
      ensures r[i] == TranslatedByte(src[..], i)
    {
      if 43 <= i <= 50 {
        assert src[..][i - 39] == src[i - 39];
      }
    }
  }

  method Buttons(src: array<bv8>, r: array<bv8>)
    requires src.Length == C272_LEN && r.Length == C269_LEN && src != r && r[7] == NeutralByte(7)
    modifies r
    ensures forall i :: i in {5, 6, 7, 54} ==> r[i] == TranslatedByte(src[..], i)
    ensures forall i :: 0 <= i < C269_LEN && i !in {5, 6, 7, 54} ==> r[i] == old(r[i])
  {
    hide Remap, Or, Has, Mask, Inverted, NeutralByte;
    r[5] := Or(Mask(src[0], 0x0f), Remap(src[0], FACE));
    r[6] := Remap(src[1], SHOULDER);
    if Has(src[3], XBOX_BUTTON) {
      r[7] := PS_BUTTON;
    }
    r[54] := Remap(src[3], ROTARY);
  }

  /** Accelerator, brake and clutch: the c272 counts up when pressed, the c269 down. */
  method Pedals(src: array<bv8>, r: array<bv8>)
    requires src.Length == C272_LEN && r.Length == C269_LEN && src != r
    modifies r
    ensures forall i :: 45 <= i <= 50 ==> r[i] == Inverted(src[i - 39])
    ensures forall i :: 0 <= i < C269_LEN && !(45 <= i <= 50) ==> r[i] == old(r[i])
  {
    hide Word, Low, High, Inverted, InvertedWord;
    var pedal := 0;
    while pedal < 3
      invariant 0 <= pedal <= 3
      invariant forall i :: 45 <= i < 45 + 2 * pedal ==> r[i] == Inverted(src[i - 39])
      invariant forall i :: 0 <= i < C269_LEN && !(45 <= i <= 50) ==> r[i] == old(r[i])
    {
      var dst, s := 45 + 2 * pedal, 6 + 2 * pedal;
      var v := Word(src[s], src[s + 1]);
      WordBytes(src[s], src[s + 1]);
      r[dst], r[dst + 1] := Low(InvertedWord(v)), High(InvertedWord(v));
      pedal := pedal + 1;
    }
  }

  // ---- What it is ----

  /** The neutral report, byte for byte. */
  lemma NeutralBytes()
    ensures [NeutralByte(0), NeutralByte(1), NeutralByte(2), NeutralByte(3), NeutralByte(4), NeutralByte(5)]
            == [0x01, 0x80, 0x80, 0x80, 0x80, 0x08]
    ensures forall i: nat :: 6 <= i <= 43 ==> NeutralByte(i) == 0x00
    ensures NeutralByte(44) == 0x80
    ensures forall i: nat :: 45 <= i <= 50 ==> NeutralByte(i) == 0xff
    ensures NeutralByte(51) == 0x00 && NeutralByte(52) == 0xff && NeutralByte(53) == 0xff
    ensures forall i: nat :: 54 <= i < 64 ==> NeutralByte(i) == 0x00
  {
  }

  /** A, X, B and Y are Cross, Square, Circle and Triangle, at their places. */
  lemma FaceButtons(b: bv8)
    ensures var r := Or(Mask(b, 0x0f), Remap(b, FACE));
            && (Has(r, 0x20) <==> Has(b, 0x10)) && (Has(r, 0x10) <==> Has(b, 0x20))
            && (Has(r, 0x40) <==> Has(b, 0x40)) && (Has(r, 0x80) <==> Has(b, 0x80))
  {
    hide Remap, Has, OneToOne, Mask;
    MapsOneToOne();
    RemapBit(b, FACE, 0);
    RemapBit(b, FACE, 1);
    RemapBit(b, FACE, 2);
    RemapBit(b, FACE, 3);
    HatApart(b, Remap(b, FACE), 0x10);
    HatApart(b, Remap(b, FACE), 0x20);
    HatApart(b, Remap(b, FACE), 0x40);
    HatApart(b, Remap(b, FACE), 0x80);
  }

  lemma HatApart(b: bv8, r: bv8, bit: bv8)
    requires bit in {0x10, 0x20, 0x40, 0x80}
    ensures Has(Or(Mask(b, 0x0f), r), bit) <==> Has(r, bit)
  {
  }

  /** Right and left paddle are R1 and L1, RT and LT R2 and L2, View Share, Menu Options, RSB and
      LSB R3 and L3. */
  lemma ShoulderButtons(b: bv8)
    ensures var r := Remap(b, SHOULDER);
            && (Has(r, 0x02) <==> Has(b, 0x01)) && (Has(r, 0x01) <==> Has(b, 0x02))
            && (Has(r, 0x08) <==> Has(b, 0x04)) && (Has(r, 0x04) <==> Has(b, 0x08))
            && (Has(r, 0x10) <==> Has(b, 0x10)) && (Has(r, 0x20) <==> Has(b, 0x20))
            && (Has(r, 0x80) <==> Has(b, 0x40)) && (Has(r, 0x40) <==> Has(b, 0x80))
  {
    hide Remap, Has, OneToOne;
    MapsOneToOne();
    for k := 0 to 8
      invariant forall i :: 0 <= i < k ==> (Has(Remap(b, SHOULDER), SHOULDER[i].1) <==> Has(b, SHOULDER[i].0))
    {
      RemapBit(b, SHOULDER, k);
    }
    assert SHOULDER[0] == (0x01, 0x02) && SHOULDER[1] == (0x02, 0x01) && SHOULDER[2] == (0x04, 0x08);
    assert SHOULDER[3] == (0x08, 0x04) && SHOULDER[4] == (0x10, 0x10) && SHOULDER[5] == (0x20, 0x20);
    assert SHOULDER[6] == (0x40, 0x80) && SHOULDER[7] == (0x80, 0x40);
  }

  /** Right encoder clockwise, counter-clockwise and click, then the left one's. */
  lemma RotaryEncoders(b: bv8)
    ensures var r := Remap(b, ROTARY);
            && (Has(r, 0x04) <==> Has(b, 0x02)) && (Has(r, 0x02) <==> Has(b, 0x04)) && (Has(r, 0x01) <==> Has(b, 0x08))
            && (Has(r, 0x10) <==> Has(b, 0x10)) && (Has(r, 0x08) <==> Has(b, 0x20)) && (Has(r, 0x20) <==> Has(b, 0x40))
  {
    hide Remap, Has, OneToOne;
    MapsOneToOne();
    for k := 0 to 6
      invariant forall i :: 0 <= i < k ==> (Has(Remap(b, ROTARY), ROTARY[i].1) <==> Has(b, ROTARY[i].0))
    {
      RemapBit(b, ROTARY, k);
    }
    assert ROTARY[0] == (0x02, 0x04) && ROTARY[1] == (0x04, 0x02) && ROTARY[2] == (0x08, 0x01);
    assert ROTARY[3] == (0x10, 0x10) && ROTARY[4] == (0x20, 0x08) && ROTARY[5] == (0x40, 0x20);
  }

  /** Every button of the report shows at its place in the translation, and the Xbox button as
      the PS button. */
  lemma ButtonsShow(src: seq<bv8>)
    requires |src| == C272_LEN
    ensures var r := Translated(src);
            && (Has(r[5], 0x20) <==> Has(src[0], 0x10)) && (Has(r[5], 0x10) <==> Has(src[0], 0x20))
            && (Has(r[5], 0x40) <==> Has(src[0], 0x40)) && (Has(r[5], 0x80) <==> Has(src[0], 0x80))
            && (Has(r[6], 0x02) <==> Has(src[1], 0x01)) && (Has(r[6], 0x01) <==> Has(src[1], 0x02))
            && (Has(r[6], 0x08) <==> Has(src[1], 0x04)) && (Has(r[6], 0x04) <==> Has(src[1], 0x08))
            && (Has(r[6], 0x10) <==> Has(src[1], 0x10)) && (Has(r[6], 0x20) <==> Has(src[1], 0x20))
            && (Has(r[6], 0x80) <==> Has(src[1], 0x40)) && (Has(r[6], 0x40) <==> Has(src[1], 0x80))
            && (Has(r[54], 0x04) <==> Has(src[3], 0x02)) && (Has(r[54], 0x02) <==> Has(src[3], 0x04))
            && (Has(r[54], 0x01) <==> Has(src[3], 0x08)) && (Has(r[54], 0x10) <==> Has(src[3], 0x10))
            && (Has(r[54], 0x08) <==> Has(src[3], 0x20)) && (Has(r[54], 0x20) <==> Has(src[3], 0x40))
            && r[7] == if Has(src[3], 0x80) then 0x01 else 0x00
  {
    hide Remap, Has, Or, Mask;
    FaceButtons(src[0]);
    ShoulderButtons(src[1]);
    RotaryEncoders(src[3]);
  }

  // ---- What the translation keeps ----

  /** The targets a map gives are among its targets. */
  lemma {:induction false} RemapWithin(b: bv8, pairs: BitMap)
    ensures Mask(Remap(b, pairs), Sources(Swapped(pairs))) == Remap(b, pairs)
    ensures Remap(0, pairs) == 0
  {
    hide Has, Mask, Or;
    if pairs == [] {
      Nothing(0);
    } else {
      var before, last := pairs[..|pairs| - 1], pairs[|pairs| - 1];
      assert Swapped(pairs)[..|pairs| - 1] == Swapped(before);
      RemapWithin(b, before);
      WithinMore(Remap(b, before), Sources(Swapped(before)), last.1);
      Nothing(last.0);
    }
  }

  lemma WithinMore(r: bv8, mask: bv8, bit: bv8)
    requires Mask(r, mask) == r
    ensures Mask(r, Or(mask, bit)) == r && Mask(Or(r, bit), Or(mask, bit)) == Or(r, bit)
  {
  }

  lemma TwoSources(pairs: BitMap, n: nat)
    requires n + 2 <= |pairs|
    ensures Sources(pairs[..n + 2]) == Or(Or(Sources(pairs[..n]), pairs[n].0), pairs[n + 1].0)
  {
    assert pairs[..n + 2][..n + 1] == pairs[..n + 1] && pairs[..n + 1][..n] == pairs[..n];
  }

  lemma SourcesOfAll(pairs: BitMap)
    requires |pairs| in {4, 6, 8}
    ensures Sources(pairs)
            == var four := Or(Or(Or(Or(0, pairs[0].0), pairs[1].0), pairs[2].0), pairs[3].0);
               var six := if |pairs| > 4 then Or(Or(four, pairs[4].0), pairs[5].0) else four;
               if |pairs| > 6 then Or(Or(six, pairs[6].0), pairs[7].0) else six
  {
    hide Or;
    assert pairs[..|pairs|] == pairs && pairs[..0] == [];
    TwoSources(pairs, 0);
    TwoSources(pairs, 2);
    if |pairs| > 4 {
      TwoSources(pairs, 4);
    }
    if |pairs| > 6 {
      TwoSources(pairs, 6);
    }
  }

  /** The three maps are one-to-one ... */
  lemma MapsOneToOne()
    ensures OneToOne(FACE) && OneToOne(SHOULDER) && OneToOne(ROTARY)
  {
    ShoulderOneToOne();
    RotaryOneToOne();
  }

  lemma ShoulderOneToOne()
    ensures OneToOne(SHOULDER)
  {
    hide SingleBit;
    AllSingleBits();
  }

  lemma RotaryOneToOne()
    ensures OneToOne(ROTARY)
  {
    hide SingleBit;
    AllSingleBits();
  }

  lemma AllSingleBits()
    ensures SingleBit(0x01) && SingleBit(0x02) && SingleBit(0x04) && SingleBit(0x08)
    ensures SingleBit(0x10) && SingleBit(0x20) && SingleBit(0x40) && SingleBit(0x80)
  {
  }

  /** ... on these bits. */
  lemma MapSources()
    ensures Sources(FACE) == 0xf0 && Sources(Swapped(FACE)) == 0xf0
    ensures Sources(SHOULDER) == 0xff && Sources(ROTARY) == 0x7e
  {
    hide Sources;
    SourcesOfAll(FACE);
    SourcesOfAll(Swapped(FACE));
    SourcesOfAll(SHOULDER);
    SourcesOfAll(ROTARY);
  }

  /** Face buttons and hat share byte 5 without disturbing each other. */
  lemma FaceAndHat(b: bv8)
    ensures var r := Or(Mask(b, 0x0f), Remap(b, FACE));
            Mask(r, 0x0f) == Mask(b, 0x0f) && Remap(r, Swapped(FACE)) == Mask(b, 0xf0)
  {
    hide Remap, Sources, OneToOne;
    MapsOneToOne();
    MapSources();
    RemapWithin(b, FACE);
    RemapWithin(0, Swapped(FACE));
    RemapDistributes(Mask(b, 0x0f), Remap(b, FACE), Swapped(FACE));
    RemapOfMapped(Mask(b, 0x0f), 0, Swapped(FACE));
    RemapInverse(b, FACE);
  }

  /** Every control can be read back from the translation; all other bytes are neutral. */
  lemma Recoverable(src: seq<bv8>)
    requires |src| == C272_LEN
    ensures var r := Translated(src);
            && Mask(r[5], 0x0f) == Mask(src[0], 0x0f)
            && Remap(r[5], Swapped(FACE)) == Mask(src[0], 0xf0)
            && Remap(r[6], Swapped(SHOULDER)) == src[1]
            && (Has(r[7], PS_BUTTON) <==> Has(src[3], XBOX_BUTTON))
            && Remap(r[54], Swapped(ROTARY)) == Mask(src[3], 0x7e)
            && Axis(r, 43) == Axis(src, 4)
            && Axis(r, 45) == 0xffff - Axis(src, 6)
            && Axis(r, 47) == 0xffff - Axis(src, 8)
            && Axis(r, 49) == 0xffff - Axis(src, 10)
            && (forall i :: 0 <= i < C269_LEN && i !in {5, 6, 7, 54} && !(43 <= i <= 50) ==> r[i] == NeutralByte(i))
  {
    hide Remap, Sources, OneToOne, Mask, Or, Word, Inverted, NeutralByte;
    PsButton(src[3]);
    MapsOneToOne();
    MapSources();
    FaceAndHat(src[0]);
    RemapInverse(src[1], SHOULDER);
    RemapInverse(src[3], ROTARY);
    WholeByte(src[1]);
    InvertedBytes(src[6], src[7]);
    InvertedBytes(src[8], src[9]);
    InvertedBytes(src[10], src[11]);
  }

  lemma PsButton(b: bv8)
    ensures Has(if Has(b, XBOX_BUTTON) then PS_BUTTON else NeutralByte(7), PS_BUTTON) <==> Has(b, XBOX_BUTTON)
  {
  }

  lemma WholeByte(b: bv8)
    ensures Mask(b, 0xff) == b
  {
  }

  lemma InvertedBytes(low: bv8, high: bv8)
    ensures Word(Inverted(low), Inverted(high)) == 0xffff - Word(low, high)
  {
  }

  /** The controls of a c272 report that the c269 has too. */
  predicate SameControls(a: seq<bv8>, b: seq<bv8>)
    requires |a| == |b| == C272_LEN
  {
    && a[0] == b[0] && a[1] == b[1]
    && Mask(a[3], 0xfe) == Mask(b[3], 0xfe)
    && forall i :: 4 <= i < 12 ==> a[i] == b[i]
  }

  lemma Nibbles(a: bv8, b: bv8)
    ensures a == b <==> Mask(a, 0x0f) == Mask(b, 0x0f) && Mask(a, 0xf0) == Mask(b, 0xf0)
  {
    assert forall x: bv8 :: x == Mask(x, 0x0f) | Mask(x, 0xf0);
  }

  lemma TopBit(a: bv8)
    ensures Mask(a, 0xfe) == Or(Mask(a, 0x7e), if Has(a, XBOX_BUTTON) then XBOX_BUTTON else 0)
    ensures Mask(Mask(a, 0xfe), 0x7e) == Mask(a, 0x7e) && (Has(Mask(a, 0xfe), XBOX_BUTTON) <==> Has(a, XBOX_BUTTON))
  {
  }

  lemma InvertedTwice(a: bv8)
    ensures Inverted(Inverted(a)) == a
  {
  }

  /** Two reports translate to the same exactly when all controls that the c269 has are the
      same. */
  lemma TranslatedSameIff(a: seq<bv8>, b: seq<bv8>)
    requires |a| == |b| == C272_LEN
    ensures Translated(a) == Translated(b) <==> SameControls(a, b)
  {
    hide Remap, Sources, OneToOne, Mask, Or, Word, Inverted, NeutralByte, Has;
    var r, s := Translated(a), Translated(b);
    Nibbles(a[0], b[0]);
    TopBit(a[3]);
    TopBit(b[3]);
    if SameControls(a, b) {
      MapsOneToOne();
      MapSources();
      RemapSameIff(a[3], b[3], ROTARY);
      assert forall i :: 0 <= i < C269_LEN ==> r[i] == s[i];
    }
    if r == s {
      Recoverable(a);
      Recoverable(b);
      forall i | 4 <= i < 12
        ensures a[i] == b[i]
      {
        InvertedTwice(a[i]);
        InvertedTwice(b[i]);
        assert r[i + 39] == s[i + 39];
      }
    }
  }

  /** A wheel at rest translates to the report sent before the first. */
  lemma AtRest(src: seq<bv8>)
    requires |src| == C272_LEN
    requires src[0] == HAT_NEUTRAL && src[1] == 0 && src[3] == 0 && src[4] == 0 && src[5] == 0x80
    requires forall i :: 6 <= i < 12 ==> src[i] == 0
    ensures forall i :: 0 <= i < C269_LEN ==> Translated(src)[i] == NeutralByte(i)
  {
    hide Remap, Sources, OneToOne;
    MapSources();
    RemapWithin(0, FACE);
    RemapWithin(0, SHOULDER);
    RemapWithin(0, ROTARY);
    RemapOfMapped(HAT_NEUTRAL, 0, FACE);
  }
}
