/**
  The rev lights (`rev_lights` in src/proxy.rs): the console's five LEDs as a level of the
  wheel's ten, sent on change.
 */
module RevLights {
  import opened Changes
  import opened Common

  const LED_COMMAND: Bytes := [0x30, 0xf8, 0x12]
  const BRIDGE_SWID: byte := 0x0b
  const HIDPP_LONG_LEN: nat := 20
  const LEDS: bv8 := 0x1f
  const MAX_LEVEL: nat := 10

  /** Bit `k` of `b` as a number. */
  function Bit(b: bv8, k: nat): nat
    requires k < 8
  {
    if (b >> k) & 1 == 1 then 1 else 0
  }

  /** `count_ones` of the low `n` bits. */
  function Ones(b: bv8, n: nat): (ones: nat)
    requires n <= 8
    ensures ones <= n
  {
    if n == 0 then 0 else Ones(b, n - 1) + Bit(b, n - 1)
  }

  /** Two levels for every lit LED. */
  function Level(mask: bv8): nat {
    2 * Ones(mask & LEDS, 8)
  }

  /** `a`'s bits are among `b`'s. */
  predicate Within(a: bv8, b: bv8) {
    a & b == a
  }

  lemma BitWithin(a: bv8, b: bv8, k: nat)
    requires k < 8 && Within(a, b)
    ensures Bit(a, k) <= Bit(b, k)
  {
  }

  lemma {:induction false} OnesWithin(a: bv8, b: bv8, n: nat)
    requires n <= 8 && Within(a, b)
    ensures Ones(a, n) <= Ones(b, n)
  {
    hide Within, Bit;
    if n == 0 {
    } else {
      OnesWithin(a, b, n - 1);
      BitWithin(a, b, n - 1);
    }
  }

  /** More LEDs, no lower level. */
  lemma LevelMonotone(a: bv8, b: bv8)
    requires Within(a & LEDS, b & LEDS)
    ensures Level(a) <= Level(b)
  {
    OnesWithin(a & LEDS, b & LEDS, 8);
  }

  lemma HighBits(mask: bv8)
    ensures Bit(mask & LEDS, 5) == Bit(mask & LEDS, 6) == Bit(mask & LEDS, 7) == 0
  {
  }

  /** The level fits the wheel's ten LEDs, and is even. */
  lemma LevelRange(mask: bv8)
    ensures Level(mask) <= MAX_LEVEL && Level(mask) % 2 == 0
  {
    hide Bit;
    HighBits(mask);
    var b := mask & LEDS;
    assert Ones(b, 8) == Ones(b, 7) + Bit(b, 7) == Ones(b, 6) + Bit(b, 6) == Ones(b, 5) + Bit(b, 5);
  }

  function Led(k: nat): bv8
    requires k < 5
  {
    1 << k
  }

  lemma BitsOf(mask: bv8, k: nat, a: bv8, b: bv8)
    requires k < 5 && mask & Led(k) == 0 && a == mask & LEDS && b == (mask | Led(k)) & LEDS
    ensures Bit(a, k) == 0 && Bit(b, k) == 1
    ensures forall i: nat :: i < 8 && i != k ==> Bit(b, i) == Bit(a, i)
  {
  }

  /** No LED lit is level 0, each of the five adds 2, and nothing else counts. */
  lemma LevelAdds(mask: bv8, k: nat)
    requires k < 5 && mask & Led(k) == 0
    ensures Level(0) == 0 && Level(mask | Led(k)) == Level(mask) + 2
    ensures Level(mask) == Level(mask & LEDS)
  {
    hide Bit, Led;
    BitsOf(mask, k, mask & LEDS, (mask | Led(k)) & LEDS);
    OnesOneMore(mask & LEDS, (mask | Led(k)) & LEDS, k, 8);
    LevelNothing(mask);
  }

  lemma LevelNothing(mask: bv8)
    ensures Level(0) == 0 && Level(mask) == Level(mask & LEDS)
  {
    assert mask & LEDS & LEDS == mask & LEDS;
    NoOnes(8);
    assert 0 & LEDS == 0;
  }

  lemma {:induction false} NoOnes(n: nat)
    requires n <= 8
    ensures Ones(0, n) == 0
  {
    if n == 0 {
    } else {
      NoOnes(n - 1);
    }
  }

  lemma {:induction false} OnesOneMore(a: bv8, b: bv8, k: nat, n: nat)
    requires k < 8 && n <= 8 && Bit(a, k) == 0 && Bit(b, k) == 1
    requires forall i: nat :: i < 8 && i != k ==> Bit(b, i) == Bit(a, i)
    ensures Ones(b, n) == Ones(a, n) + if k < n then 1 else 0
  {
    hide Bit;
    if n == 0 {
    } else {
      OnesOneMore(a, b, k, n - 1);
    }
  }

  /** An IF0 output report, and the wheel's LED feature index (0 when it has none). */
  datatype Request = Request(report: Bytes, index: byte)

  predicate IsLedCommand(r: Request) {
    |r.report| >= 4 && r.report[..3] == LED_COMMAND && r.index != 0
  }

  function LevelOf(r: Request): Option<nat>
    requires IsLedCommand(r)
  {
    Some(Level(r.report[3] as bv8))
  }

  /** The levels asked for, in order. */
  function Asked(requests: seq<Request>): seq<Option<nat>> {
    if requests == [] then []
    else
      var r := requests[|requests| - 1];
      Asked(requests[..|requests| - 1]) + if IsLedCommand(r) then [LevelOf(r)] else []
  }

  /** HID++ long request to feature `index`, function 6. */
  function Message(index: byte, level: byte): (m: Bytes)
    ensures |m| == HIDPP_LONG_LEN && m[2] == index && Shown(m) == Some(level as nat)
  {
    [0x11, 0xff, index, 0x60 + BRIDGE_SWID, 0x00, 0x01, 0x00, 0x0a, 0x00, level] + Zeros(10)
  }

  /** What the wheel makes of a message: the level to show. */
  function Shown(m: Bytes): Option<nat> {
    if |m| == HIDPP_LONG_LEN && m[0] == 0x11 && m[3] == 0x60 + BRIDGE_SWID && m[5] == 0x01 && m[7] == 0x0a
    then Some(m[9] as nat) else None
  }

  function AllShown(commands: seq<Bytes>): (r: seq<Option<nat>>)
    ensures |r| == |commands| && forall i :: 0 <= i < |r| ==> r[i] == Shown(commands[i])
  {
    seq(|commands|, i requires 0 <= i < |commands| => Shown(commands[i]))
  }

  lemma AskedNext(requests: seq<Request>, r: Request)
    ensures !IsLedCommand(r) ==> Asked(requests + [r]) == Asked(requests)
    ensures IsLedCommand(r) ==>
              && LastOf(None, Asked(requests + [r])) == LevelOf(r)
              && Collapsed(None, Asked(requests + [r]))
                 == Collapsed(None, Asked(requests))
                    + if LevelOf(r) == LastOf(None, Asked(requests)) then [] else [LevelOf(r)]
  {
    hide LevelOf, IsLedCommand, Collapsed;
    assert (requests + [r])[..|requests|] == requests;
    if IsLedCommand(r) {
      CollapsedNext(None, Asked(requests), LevelOf(r));
    } else {
      assert Asked(requests) + [] == Asked(requests);
    }
  }

  lemma LedCommandIs(r: Request)
    ensures IsLedCommand(r) <==>
              && |r.report| >= 4 && r.report[0] == 0x30 && r.report[1] == 0xf8 && r.report[2] == 0x12
              && r.index != 0
  {
    if |r.report| >= 4 {
      assert r.report[..3] == [r.report[0], r.report[1], r.report[2]];
    }
  }

  lemma MessageIs(index: byte, level: byte)
    ensures Message(index, level) == [0x11, 0xff, index, 0x6b, 0x00, 0x01, 0x00, 0x0a, 0x00, level] + Zeros(10)
  {
  }

  lemma ShownNext(commands: seq<Bytes>, m: Bytes)
    ensures AllShown(commands + [m]) == AllShown(commands) + [Shown(m)]
  {
  }

  /** The part of `serve_ep0` that handles IF0 output reports. */
  class Lights {
    var last: Option<nat>
    ghost var requests: seq<Request>
    ghost var commands: seq<Bytes>

    /** The commands show exactly the levels asked for, without repeats. */
    ghost predicate Valid()
      reads this
    {
      && last == LastOf(None, Asked(requests))
      && AllShown(commands) == Collapsed(None, Asked(requests))
    }

    constructor ()
      ensures Valid() && requests == [] && commands == []
    {
      last, requests, commands := None, [], [];
    }

    method RevLights(r: Request) returns (command: Option<Bytes>)
      requires Valid()
      modifies this
      ensures Valid() && requests == old(requests) + [r]
      ensures commands == old(commands) + if command.Some? then [command.value] else []
      ensures command.Some? <==> IsLedCommand(r) && LevelOf(r) != LastOf(None, old(Asked(requests)))
      ensures IsLedCommand(r) <==>
                && |r.report| >= 4 && r.report[0] == 0x30 && r.report[1] == 0xf8 && r.report[2] == 0x12
                && r.index != 0
      ensures command.Some? ==>
                && Shown(command.value) == LevelOf(r)
                && command.value == [0x11, 0xff, r.index, 0x6b, 0x00, 0x01, 0x00, 0x0a, 0x00, LevelOf(r).value] + Zeros(10)
    {
      hide Level, Collapsed, Message, Shown, Asked, LastOf, AllShown, IsLedCommand;
      LedCommandIs(r);
      AskedNext(requests, r);
      requests := requests + [r];
      command := None;
      if !IsLedCommand(r) {
        return;
      }
      var lit := Level(r.report[3] as bv8);
      LevelRange(r.report[3] as bv8);
      if last == Some(lit) {
        return;
      }
      last := Some(lit);
      command := Some(Message(r.index, lit));
      MessageIs(r.index, lit);
      ShownNext(commands, command.value);
      commands := commands + [command.value];
    }

    /** The last command shows the latest level asked for, and no command repeats the one
        before. */
    lemma SentOnChange()
      requires Valid() && Asked(requests) != []
      ensures commands != [] && Shown(commands[|commands| - 1]) == LastOf(None, Asked(requests))
      ensures forall i :: 0 < i < |commands| ==> Shown(commands[i]) != Shown(commands[i - 1])
    {
      AskedSome(requests);
      CollapsedLast(None, Asked(requests));
      CollapsedChanges(None, Asked(requests));
      forall i | 0 < i < |commands|
        ensures Shown(commands[i]) != Shown(commands[i - 1])
      {
        var c := AllShown(commands);
        assert c[..i][i - 1] == c[i - 1];
      }
    }
  }

  lemma {:induction false} AskedSome(requests: seq<Request>)
    ensures forall i :: 0 <= i < |Asked(requests)| ==> Asked(requests)[i].Some?
  {
    if requests == [] {
    } else {
      AskedSome(requests[..|requests| - 1]);
    }
  }
}
