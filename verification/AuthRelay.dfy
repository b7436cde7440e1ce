/**
  The authentication relay of src/auth.rs: the console's control requests on core 0, the
  signer side on core 1, and an adversarial signer.

  Core 1's methods follow the source. Wherever the source waits, `Interfere` lets core 0 take
  any number of steps; each step is one critical section or one queue operation. `Inv` is
  required and ensured by every method, so it holds in every state of every interleaving.

  Choices made by the environment are written `*` or `:| true`: what the console asks, when core 0 gets
  to run, how long a transfer takes, whether the signer takes a page, whether its reply
  arrives, how far its page pointer jumps.
 */
module AuthRelay {
  import opened Common
  import opened AuthCache
  import opened AuthSigning
  import Framing

  datatype Cmd = Reset | Nonce(page: Bytes)

  const CMD_LEN: nat := 8

  const SIGNER_PROBE_TRIES: nat := 5
  const SIGNER_PROBE_PAUSE: nat := 200

  /** What the signer is showing. `Stale`: a new signing has begun, but F2 and F1 still give
      the previous one. */
  datatype View = Idle | Stale | Signing | Signed

  /**
    The device that can sign. `buffer` holds the nonce pages it has taken, `input` the five
    pages of the signing in progress or finished and `sig` its 19 pages; `made` records every
    signature it ever made with what was signed.
   */
  datatype Signer = Signer(
    buffer: seq<Bytes>,
    input: seq<Bytes>,
    sig: seq<Bytes>,
    view: View,
    staleUntil: nat,
    pointer: nat,
    made: set<(seq<Bytes>, seq<Bytes>)>)

  predicate FiveNoncePages(pages: seq<Bytes>) {
    |pages| == NONCE_PAGES && forall j :: 0 <= j < NONCE_PAGES ==> |pages[j]| == NONCE_LEN
  }

  predicate ValidSigner(s: Signer) {
    && FiveNoncePages(s.buffer) && FiveNoncePages(s.input)
    && (s.view != Idle ==> CompletePages(s.sig) && (s.input, s.sig) in s.made)
  }

  /** The signer's own moves: it stops being stale by starting to show the new signing, and
      finishes it; it does neither while idle. */
  predicate Moves(v: View, w: View) {
    match v
    case Idle => w == Idle
    case Stale => w != Idle
    case Signing => w == Signing || w == Signed
    case Signed => w == Signed
  }

  /** F2 replies a signer may give: "ready" is of a finished or of the previous signing. */
  predicate MaySay(v: View, reply: Bytes) {
    && |reply| == STATE_LEN
    && (reply[2] == STATE_READY ==> v != Signing)
    && (reply[2] == STATE_SIGNING ==> v == Signing || v == Idle)
  }

  /** Stands for any signature where the environment's choice is not one. */
  function SomePages(): (pages: seq<Bytes>)
    ensures CompletePages(pages)
  {
    var pages := seq(SIGNATURE_PAGES, i requires 0 <= i < SIGNATURE_PAGES => Zeros(SIGNATURE_LEN)[2 := i as byte]);
    assert forall i :: 0 <= i < SIGNATURE_PAGES ==> pages[i] == Zeros(SIGNATURE_LEN)[2 := i];
    pages
  }

  // ---- An orderly console's round, as it passes through the queue ----

  /** Nonce pages of the round still in the queue, when core 1 takes page `next` next. */
  function Queued(sent: seq<Bytes>, next: nat, sending: Option<Bytes>): int {
    |sent| - next - if sending.Some? then 1 else 0
  }

  /** The queue holds the round's remaining pages in order, `lead` resets before them, and
      resets behind them only once the round is complete. */
  predicate QueueOk(sent: seq<Bytes>, next: nat, lead: nat, sending: Option<Bytes>, cmd: seq<Cmd>) {
    && 0 < |sent| <= NONCE_PAGES
    && (forall j :: 0 <= j < |sent| ==> |sent[j]| == NONCE_LEN && sent[j][2] == j)
    && Queued(sent, next, sending) >= 0 && lead + Queued(sent, next, sending) <= |cmd|
    && (forall i :: 0 <= i < |cmd| ==>
          cmd[i] == if lead <= i < lead + Queued(sent, next, sending) then Nonce(sent[next + i - lead]) else Reset)
    && (|cmd| > lead + Queued(sent, next, sending) ==> |sent| == NONCE_PAGES && sending.None?)
    && (0 < next < NONCE_PAGES ==> lead == 0)
    && (sending.Some? ==> sending.value == sent[|sent| - 1])
  }

  predicate NotLast(page: Bytes) {
    |page| == NONCE_LEN && page[2] < LAST_NONCE_PAGE
  }

  /** A round given up part-way: what is left of it never includes the last page. */
  predicate GivenUp(sending: Option<Bytes>, cmd: seq<Cmd>) {
    && (forall i :: 0 <= i < |cmd| ==> cmd[i].Reset? || NotLast(cmd[i].page))
    && (sending.Some? ==> NotLast(sending.value))
  }

  lemma RoundStarts(data: Bytes, cmd: seq<Cmd>)
    requires |data| == NONCE_LEN && data[2] == 0 && forall i :: 0 <= i < |cmd| ==> cmd[i].Reset?
    ensures QueueOk([data], 0, |cmd|, Some(data), cmd)
  {
  }

  lemma RoundGoesOn(sent: seq<Bytes>, next: nat, lead: nat, cmd: seq<Cmd>, data: Bytes)
    requires QueueOk(sent, next, lead, None, cmd) && |sent| < NONCE_PAGES
    requires |data| == NONCE_LEN && data[2] == |sent|
    ensures QueueOk(sent + [data], next, lead, Some(data), cmd)
  {
  }

  lemma PageQueued(sent: seq<Bytes>, next: nat, lead: nat, sending: Option<Bytes>, cmd: seq<Cmd>)
    requires QueueOk(sent, next, lead, sending, cmd) && sending.Some?
    ensures QueueOk(sent, next, lead, None, cmd + [Nonce(sending.value)])
  {
  }

  lemma ResetQueued(sent: seq<Bytes>, next: nat, lead: nat, cmd: seq<Cmd>)
    requires QueueOk(sent, next, lead, None, cmd) && |sent| == NONCE_PAGES
    ensures QueueOk(sent, next, lead, None, cmd + [Reset])
  {
  }

  lemma RoundGivenUp(sent: seq<Bytes>, next: nat, lead: nat, sending: Option<Bytes>, cmd: seq<Cmd>)
    requires QueueOk(sent, next, lead, sending, cmd) && |sent| < NONCE_PAGES
    ensures GivenUp(sending, cmd)
  {
  }

  /** Core 1 takes the head of the queue: a reset only before page 0 or after page 4. */
  lemma HeadTaken(sent: seq<Bytes>, next: nat, lead: nat, sending: Option<Bytes>, cmd: seq<Cmd>)
    requires QueueOk(sent, next, lead, sending, cmd) && cmd != []
    ensures cmd[0].Reset? ==>
              && QueueOk(sent, next, if lead > 0 then lead - 1 else 0, sending, cmd[1..])
              && (next == 0 || next == NONCE_PAGES)
    ensures cmd[0].Nonce? ==>
              && next < |sent| && cmd[0].page == sent[next]
              && QueueOk(sent, next + 1, lead, sending, cmd[1..])
  {
  }

  class Relay {
    // STATE
    var reset: Bytes
    var nonceId: byte
    var ready: bool
    var readyState: Bytes
    var signature: seq<Bytes>
    var nextPage: nat
    // CMD
    var cmd: seq<Cmd>
    // Core 0 is between the two halves of `set_report`, with this page still to be queued.
    var sending: Option<Bytes>
    // NONCE, NONCE_REFUSED
    var nonce: seq<Bytes>
    var nonceRefused: bool

    // Environment: the signer, the clock (ms), and the signer's timing. After a nonce the
    // signer shows the previous signing for less than `staleWindow`; a reply that arrives is
    // at most `latency` old.
    var signer: Signer
    var now: nat
    const staleWindow: nat
    const latency: nat

    // Whether the console keeps to the protocol (see `ConsoleStep`).
    const orderly: bool
    // An orderly console's round: the pages it has sent (none while a round is given up),
    // how many core 1 has passed on and with what result, and the page core 1 has in hand.
    // `busy`: core 1 is in `handle` for a nonce page. `lead`: resets queued before the pages.
    var sent: seq<Bytes>
    var got: nat
    var acks: seq<bool>
    var hand: Option<Bytes>
    var busy: bool
    var lead: nat
    // What was signed for the last publication, and the signer's own pages.
    var pubInput: seq<Bytes>
    var pubSig: seq<Bytes>

    // Everything that happened to the cache, every command that got into the queue, what was
    // published, and everything done to the signer.
    ghost var history: seq<Event>
    ghost var queued: seq<Cmd>
    ghost var published: seq<(Bytes, seq<Bytes>)>
    ghost var io: seq<Io>

    ghost function State(): Cache
      reads this`reset, this`nonceId, this`ready, this`readyState, this`signature, this`nextPage
    {
      Cache(reset, nonceId, ready, readyState, signature, nextPage)
    }

    ghost predicate CacheInv()
      reads this`reset, this`nonceId, this`ready, this`readyState, this`signature, this`nextPage, this`history, this`published, this`cmd, this`nonce, this`signer
    {
      && Valid(State()) && Explains(history, State(), published)
      && |cmd| <= CMD_LEN
      && FiveNoncePages(nonce)
      && ValidSigner(signer)
    }

    /** Next page of the round to come out of the queue. */
    ghost function Next(): nat
      reads this`got, this`hand
    {
      got + if hand.Some? then 1 else 0
    }

    /** A round is on, or what is left of one that was given up. */
    ghost predicate QueueInv()
      reads this`sent, this`sending, this`cmd, this`hand, this`got, this`lead
    {
      && (sent == [] ==> GivenUp(sending, cmd) && (hand.Some? ==> NotLast(hand.value)))
      && (sent != [] ==>
            && QueueOk(sent, Next(), lead, sending, cmd)
            && (hand.Some? ==> got < |sent| && hand.value == sent[got]))
      && (sending.Some? ==> |cmd| < CMD_LEN)
    }

    /** Pages passed on so far are kept, and the signer has those it took. */
    ghost predicate PassedOnInv()
      reads this`sent, this`got, this`acks, this`nonce, this`signer, this`nonceRefused
    {
      && got <= |sent| <= NONCE_PAGES
      && |acks| == got
      && FiveNoncePages(nonce) && FiveNoncePages(signer.buffer)
      && (forall j :: 0 <= j < got ==> nonce[j] == sent[j])
      && (got < NONCE_PAGES ==> forall j :: 0 <= j < got && acks[j] ==> signer.buffer[j] == sent[j])
      && (0 < got < NONCE_PAGES ==> (nonceRefused <==> LaterRefused(acks)))
    }

    /** `pages` is what the console's latest nonce should have signed: pages 1 to 4 always;
        page 0 unless its refusal, and no other, was forgotten. */
    ghost predicate Latest(pages: seq<Bytes>)
      reads this`sent, this`acks
    {
      && |sent| == NONCE_PAGES && |pages| == NONCE_PAGES && |acks| == NONCE_PAGES
      && pages[1..] == sent[1..]
      && (acks[0] || LaterRefused(acks) ==> pages == sent)
    }

    /** The cached signature is one the signer made over the console's latest nonce, with
        byte 1 of every page rewritten. */
    ghost predicate Fresh()
      reads this`sent, this`acks, this`pubInput, this`pubSig, this`signer, this`signature, this`nonceId
    {
      && Latest(pubInput)
      && CompletePages(pubSig) && (pubInput, pubSig) in signer.made
      && signature == RewriteAll(pubSig, nonceId)
    }

    ghost predicate OrderInv()
      reads this`sent, this`got, this`acks, this`nonce, this`signer, this`nonceRefused, this`pubInput, this`pubSig, this`signature, this`nonceId, this`ready, this`hand, this`sending, this`cmd, this`lead
    {
      && QueueInv()
      && (sent != [] ==> PassedOnInv())
      && (ready ==> Fresh())
    }

    /** What an orderly console is recorded to have sent of its round is what it sent last. */
    ghost predicate SentInv()
      reads this`sent, this`history
    {
      EndsWith(Nonces(history), sent)
    }

    ghost predicate Inv()
      reads this`reset, this`nonceId, this`ready, this`readyState, this`signature, this`nextPage, this`history,
            this`published, this`cmd, this`nonce, this`nonceRefused, this`signer, this`sent, this`got, this`acks,
            this`lead, this`hand, this`sending, this`busy, this`pubInput, this`pubSig
    {
      CacheInv() && (orderly ==> OrderInv() && SentInv()) && (hand.Some? ==> busy) && staleWindow + latency <= STALE_READY_GRACE
    }

    /** A reset reaching the signer now takes no page away from an unfinished round. */
    ghost predicate ResetSafe()
      reads this`sent, this`got
    {
      sent == [] || got == 0 || got == NONCE_PAGES
    }

    constructor (orderly: bool, staleWindow: nat, latency: nat)
      requires staleWindow + latency <= STALE_READY_GRACE
      ensures Inv() && this.orderly == orderly && history == [] && io == []
    {
      reset, nonceId, ready, nextPage := DEFAULT_RESET, 0, false, 0;
      readyState := Zeros(STATE_LEN);
      signature := seq(SIGNATURE_PAGES, i => Zeros(SIGNATURE_LEN));
      cmd, sending := [], None;
      nonce, nonceRefused := seq(NONCE_PAGES, i => Zeros(NONCE_LEN)), false;
      var blank := seq(NONCE_PAGES, i => Zeros(NONCE_LEN));
      signer := Signer(blank, blank, [], Idle, 0, 0, {});
      now := 0;
      this.staleWindow, this.latency, this.orderly := staleWindow, latency, orderly;
      sent, got, acks, hand, busy, lead := [], 0, [], None, false, 0;
      pubInput, pubSig := [], [];
      history, published, io, queued := [], [], [], [];
    }

    /** Commands went into the queue, at its end, and none was taken out. */
    twostate predicate Grown()
      reads this`cmd, this`queued
    {
      old(queued) <= queued && cmd == old(cmd) + queued[|old(queued)|..]
    }

    // ---- Core 0: the console's control requests ----

    /** `send`: queued, or dropped when the queue is full. */
    method Send(c: Cmd)
      modifies this`cmd, this`queued
      ensures cmd == if |old(cmd)| < CMD_LEN then old(cmd) + [c] else old(cmd)
      ensures Grown()
    {
      if |cmd| < CMD_LEN {
        cmd := cmd + [c];
        queued := queued + [c];
      }
    }

    /** `get_report`: what an event of the cache model says, and a queued reset for F3. */
    method GetReport(id: byte) returns (answer: Option<Bytes>)
      requires CacheInv()
      modifies this`ready, this`nextPage, this`cmd, this`queued, this`history
      ensures CacheInv()
      ensures id == ID_RESET ==>
                && answer == Some(reset) && history == old(history) + [ReadReset(reset)]
                && cmd == if |old(cmd)| < CMD_LEN then old(cmd) + [Reset] else old(cmd)
      ensures id == ID_STATE ==>
                && answer == Some(StateAnswer(old(State())))
                && history == old(history) + [ReadState(StateAnswer(old(State())))]
      ensures id == ID_SIGNATURE ==>
                && answer == SignatureAnswer(old(State()))
                && history == old(history) + [ReadSignature(answer)]
      ensures id != ID_RESET ==> cmd == old(cmd)
      ensures id !in {ID_RESET, ID_STATE, ID_SIGNATURE} ==>
                answer == None && State() == old(State()) && history == old(history)
      ensures ready ==> old(ready)
      ensures id == ID_RESET ==> !ready
      ensures Grown()
      ensures Nonces(history) == Nonces(old(history))
    {
      hide Explains, Nonces;
      ghost var c := State();
      if id == ID_RESET {
        NoncesNext(history, ReadReset(reset));
        ExplainsNext(history, c, published, ReadReset(reset));
        ready, nextPage := false, 0;
        Send(Reset);
        history := history + [ReadReset(reset)];
        answer := Some(reset);
      } else if id == ID_STATE {
        if ready {
          answer := Some(readyState);
        } else {
          answer := Some(BusyState(nonceId));
        }
        ExplainsNext(history, c, published, ReadState(answer.value));
        NoncesNext(history, ReadState(answer.value));
        history := history + [ReadState(answer.value)];
      } else if id == ID_SIGNATURE {
        if !ready || nextPage >= SIGNATURE_PAGES {
          answer := None;
        } else {
          answer := Some(signature[nextPage]);
          nextPage := nextPage + 1;
        }
        ExplainsNext(history, c, published, ReadSignature(answer));
        NoncesNext(history, ReadSignature(answer));
        history := history + [ReadSignature(answer)];
      } else {
        answer := None;
      }
    }

    /** First half of `set_report`: the critical section. */
    method SetReport(id: byte, data: Bytes) returns (taken: bool)
      requires CacheInv() && sending.None?
      modifies this`ready, this`nextPage, this`nonceId, this`sending, this`history
      ensures CacheInv()
      ensures taken <==> id == ID_NONCE
      ensures taken ==> history == old(history) + [WriteNonce(data)] && sending == Some(Framing.Truncated(data))
      ensures taken ==> !ready && Nonces(history) == Nonces(old(history)) + [data]
      ensures !taken ==> State() == old(State()) && history == old(history) && sending.None?
    {
      hide Explains, Nonces;
      taken := id == ID_NONCE;
      if taken {
        NoncesNext(history, WriteNonce(data));
        ExplainsNext(history, State(), published, WriteNonce(data));
        ready, nextPage := false, 0;
        nonceId := if |data| > 1 then data[1] else 0;
        history := history + [WriteNonce(data)];
        sending := Some(Framing.Truncated(data));
      }
    }

    /** Second half of `set_report`: the page goes into the queue. */
    method SetReportSend()
      requires sending.Some?
      modifies this`sending, this`cmd, this`queued
      ensures sending.None? && Grown()
      ensures cmd == if |old(cmd)| < CMD_LEN then old(cmd) + [Nonce(old(sending).value)] else old(cmd)
    {
      Send(Nonce(sending.value));
      sending := None;
    }

    /**
      One step of core 0. Any request at any time, except that an orderly console
      - sends a round as full pages 0 to 4 in order, gives it up on reading F3 in between, and
        loses none of them to a full queue;
      - starts a round only when no page of an earlier one is queued and core 1 is not handling
        one (so `sign` has returned).
     */
    method ConsoleStep()
      requires Inv()
      modifies this`ready, this`nextPage, this`nonceId, this`sending, this`history, this`cmd, this`queued,
               this`sent, this`got, this`acks, this`lead
      ensures Inv() && Rely()
    {
      if sending.Some? {
        if * {
          ConsoleSends();
        }
      } else if * {
        ConsoleReads();
      } else {
        ConsoleWrites();
      }
    }

    method ConsoleSends()
      requires Inv() && sending.Some?
      modifies this`sending, this`cmd, this`queued
      ensures Inv() && Rely()
    {
      hide Explains, After, Enabled, Nonces, EndsWith, Fresh, PassedOnInv, QueueOk;
      if orderly && sent != [] {
        PageQueued(sent, Next(), lead, sending, cmd);
      }
      SetReportSend();
    }

    method ConsoleReads()
      requires Inv() && sending.None?
      modifies this`ready, this`nextPage, this`history, this`cmd, this`queued, this`sent
      ensures Inv() && Rely()
    {
      hide Explains, After, Enabled, Nonces, EndsWith;
      var id: byte :| true;
      if id == ID_RESET {
        ConsoleResets();
      } else {
        var answer := GetReport(id);
      }
    }

    /** Reading F3 in the middle of a round gives it up. */
    method ConsoleResets()
      requires Inv() && sending.None?
      modifies this`ready, this`nextPage, this`history, this`cmd, this`queued, this`sent
      ensures Inv() && Rely()
    {
      hide Explains, After, Enabled, Nonces, EndsWith, PassedOnInv, Fresh, ValidSigner, FiveNoncePages;
      if orderly && sent != [] {
        if |sent| == NONCE_PAGES {
          ResetQueued(sent, Next(), lead, cmd);
        } else {
          RoundGivenUp(sent, Next(), lead, sending, cmd);
          sent := [];
        }
      }
      var answer := GetReport(ID_RESET);
      EndsWithNothing(Nonces(history));
    }

    method ConsoleWrites()
      requires Inv() && sending.None?
      modifies this`ready, this`nextPage, this`nonceId, this`sending, this`history,
               this`sent, this`got, this`acks, this`lead
      ensures Inv() && Rely()
    {
      hide Explains, After, Enabled, Nonces, EndsWith, QueueOk, PassedOnInv, Fresh;
      var id: byte :| true;
      var data: Bytes :| true;
      if orderly && id == ID_NONCE {
        OrderlyWrites(data);
      } else {
        var taken := SetReport(id, data);
      }
    }

    method OrderlyWrites(data: Bytes)
      requires orderly && Inv() && sending.None?
      modifies this`ready, this`nextPage, this`nonceId, this`sending, this`history,
               this`sent, this`got, this`acks, this`lead
      ensures Inv() && Rely()
    {
      hide Explains, After, Enabled, Nonces, EndsWith, QueueOk, PassedOnInv, Fresh, CacheInv, GivenUp;
      var next := NextPage(data);
      if next {
        EndsWithMore(Nonces(history), old(sent), data);
        var taken := SetReport(ID_NONCE, data);
      }
    }

    /** Whether `data` is a page an orderly console may send now; if so, it is in the round. */
    method NextPage(data: Bytes) returns (next: bool)
      requires orderly && Inv() && sending.None?
      modifies this`sent, this`got, this`acks, this`lead
      ensures next ==>
                && |data| == NONCE_LEN && |cmd| < CMD_LEN
                && QueueOk(sent, Next(), lead, Some(data), cmd)
                && (hand.Some? ==> got < |sent| && hand.value == sent[got])
                && PassedOnInv()
                && (if !busy && sent == [data] then got == 0 else
                      old(sent) != [] && sent == old(sent) + [data] && |old(sent)| < NONCE_PAGES
                      && got == old(got) && acks == old(acks) && lead == old(lead))
      ensures !next ==> sent == old(sent) && got == old(got) && acks == old(acks) && lead == old(lead)
    {
      hide Explains, After, Enabled, Nonces, EndsWith;
      if |data| != NONCE_LEN || |cmd| >= CMD_LEN {
        next := false;
      } else if data[2] == 0 && !busy && forall i :: 0 <= i < |cmd| ==> cmd[i].Reset? {
        RoundStarts(data, cmd);
        sent, got, acks, lead := [data], 0, [], |cmd|;
        next := true;
      } else if 0 < |sent| < NONCE_PAGES && data[2] == |sent| {
        RoundGoesOn(sent, Next(), lead, cmd, data);
        sent := sent + [data];
        next := true;
      } else {
        next := false;
      }
    }

    /** What core 1 may count on while core 0 runs. */
    twostate predicate Rely()
      reads this
    {
      && old(history) <= history
      && Grown()
      && old(now) <= now
      && (orderly && old(busy) ==> got == old(got) && acks == old(acks) && (sent == [] || (old(sent) != [] && old(sent) <= sent)))
      && (orderly && old(busy) && |old(sent)| == NONCE_PAGES ==> sent == old(sent))
      && (orderly && old(ResetSafe()) ==> ResetSafe())
    }

    /** Core 0 takes any number of steps. */
    method Interfere()
      requires Inv()
      modifies this`ready, this`nextPage, this`nonceId, this`sending, this`history, this`cmd, this`queued,
               this`sent, this`got, this`acks, this`lead
      ensures Inv() && Rely()
    {
      hide Explains, After, Enabled, Nonces, EndsWith;
      var n: nat :| true;
      while n > 0
        invariant Inv() && Rely()
      {
        ConsoleStep();
        n := n - 1;
      }
    }

    // ---- The signer: transfers on its control pipe ----

    /** A signing of the five pages in `input` has begun, and its stale window is bounded. */
    ghost predicate Begun()
      reads this`signer, this`now
    {
      signer.view != Idle && signer.staleUntil <= now + staleWindow
    }

    /** Nothing the signer has signed or is signing changed; it may only have moved on. */
    twostate predicate SameSigning()
      reads this`signer, this`now
    {
      && signer.buffer == old(signer.buffer) && signer.input == old(signer.input)
      && signer.sig == old(signer.sig) && signer.made == old(signer.made)
      && signer.staleUntil == old(signer.staleUntil)
      && Moves(old(signer.view), signer.view)
      && old(now) <= now
    }

    /** `Timer::after`. */
    method Pause(ms: nat)
      requires Inv()
      modifies this`ready, this`nextPage, this`nonceId, this`sending, this`history, this`cmd, this`queued,
               this`sent, this`got, this`acks, this`lead, this`now, this`io
      ensures Inv() && Rely()
      ensures now >= old(now) + ms
      ensures io == old(io) + [PauseIo(ms)]
    {
      hide Inv;
      Interfere();
      var late: nat :| true;
      now := now + ms + late;
      io := io + [PauseIo(ms)];
    }

    /** `reset_signer`: GET F3. It may never reach the signer; if it does, the signer drops
        what it was signing, and its nonce pages may be anything. */
    method ResetSigner()
      requires Inv() && (orderly ==> ResetSafe())
      modifies this`ready, this`nextPage, this`nonceId, this`sending, this`history, this`cmd, this`queued,
               this`sent, this`got, this`acks, this`lead, this`now, this`io, this`signer
      ensures Inv() && Rely()
      ensures signer.made == old(signer.made)
      ensures io == old(io) + [ResetIo]
    {
      hide Inv;
      Interfere();
      SignerResets();
      Interfere();
      var took: nat :| true;
      now := now + took;
      io := io + [ResetIo];
    }

    method SignerResets()
      requires Inv() && (orderly ==> ResetSafe())
      modifies this`signer
      ensures Inv()
      ensures signer.made == old(signer.made)
    {
      hide Explains, After, Enabled, Nonces, EndsWith, QueueOk;
      var arrives: bool :| true;
      var b: seq<Bytes> :| true;
      if arrives {
        signer := signer.(view := Idle, buffer := if FiveNoncePages(b) then b else signer.buffer);
      }
    }

    /** `set_nonce`: SET F0. The signer takes the whole page or reports failure; a page it took
        may still be reported as failed. Its last page starts a signing of the five it holds. */
    method SetNonce(data: Bytes) returns (acked: bool, ghost taken: bool)
      requires Inv() && (orderly ==> MayPass(data))
      modifies this`ready, this`nextPage, this`nonceId, this`sending, this`history, this`cmd, this`queued,
               this`sent, this`got, this`acks, this`lead, this`now, this`io, this`signer
      ensures Inv() && Rely()
      ensures old(signer.made) <= signer.made
      ensures !IsPage(data) ==> signer == old(signer)
      ensures |old(signer.buffer)| == NONCE_PAGES && (acked ==> taken)
      ensures signer.buffer == TakePage(old(signer.buffer), data, taken)
      ensures acked && IsPage(data) && data[2] == LAST_NONCE_PAGE ==> Begun() && signer.input == signer.buffer
      ensures io == old(io) + [NonceIo(data, acked)]
    {
      hide Inv, QueueInv, TakePage, IsPage;
      Interfere();
      acked, taken := TransferPage(data);
      Interfere();
      var took: nat :| true;
      now := now + took;
      io := io + [NonceIo(data, acked)];
    }

    /** The transfer itself, which may take any time before it reaches the signer, if it does. */
    method TransferPage(data: Bytes) returns (acked: bool, ghost taken: bool)
      requires Inv() && (orderly ==> MayPass(data))
      modifies this`now, this`signer
      ensures Inv() && old(signer.made) <= signer.made && old(now) <= now
      ensures !IsPage(data) ==> signer == old(signer)
      ensures |old(signer.buffer)| == NONCE_PAGES && (acked ==> taken)
      ensures signer.buffer == TakePage(old(signer.buffer), data, taken)
      ensures acked && IsPage(data) && data[2] == LAST_NONCE_PAGE ==> Begun() && signer.input == signer.buffer
    {
      hide Inv, QueueInv, TakePage, IsPage;
      PagesHeld();
      NotTaken(data);
      var before: nat :| true;
      now := now + before;
      acked, taken := false, false;
      if * {
        SignerTakes(data);
        taken := true;
        acked := *;
      }
    }

    /** What core 1 may pass on: the page in hand, or any page once the round is complete. */
    ghost predicate MayPass(data: Bytes)
      reads this`busy, this`sent, this`got, this`hand
    {
      busy && (sent == [] || got == NONCE_PAGES || hand == Some(data))
    }

    method SignerTakes(data: Bytes)
      requires Inv() && (orderly ==> MayPass(data))
      modifies this`signer
      ensures Inv() && old(signer.made) <= signer.made
      ensures !IsPage(data) ==> signer == old(signer)
      ensures |old(signer.buffer)| == NONCE_PAGES && signer.buffer == TakePage(old(signer.buffer), data, true)
      ensures IsPage(data) && data[2] == LAST_NONCE_PAGE ==> Begun() && signer.input == signer.buffer
    {
      hide Explains, After, Enabled, Nonces, EndsWith;
      if IsPage(data) {
        var buffer := signer.buffer[data[2] := data];
        signer := signer.(buffer := buffer);
        if data[2] == LAST_NONCE_PAGE {
          var pages: seq<Bytes> :| true;
          var showsOld: bool :| true;
          var sig := if CompletePages(pages) then pages else SomePages();
          signer := signer.(input := buffer, sig := sig, pointer := 0,
                            view := if showsOld then Stale else Signing,
                            staleUntil := now + staleWindow,
                            made := signer.made + {(buffer, sig)});
        }
      }
    }

    /** The signer's own progress up to the moment it answers. */
    method SignerMoves()
      requires Inv()
      modifies this`signer
      ensures Inv() && SameSigning() && signer.pointer == old(signer.pointer)
      ensures signer.view == Stale ==> now < signer.staleUntil
    {
      hide Explains, After, Enabled, Nonces, EndsWith, QueueOk;
      var v: View :| true;
      if Moves(signer.view, v) {
        signer := signer.(view := v);
      }
      if signer.view == Stale && now >= signer.staleUntil {
        signer := signer.(view := Signing);
      }
    }

    /** GET F2. The signer may take any time to answer. A "ready" that comes from the previous
        signing was given within the stale window, and is at most `latency` old. */
    method PollSigner() returns (reply: Option<Bytes>)
      requires Inv()
      modifies this`ready, this`nextPage, this`nonceId, this`sending, this`history, this`cmd, this`queued,
               this`sent, this`got, this`acks, this`lead, this`now, this`signer
      ensures Inv() && Rely() && SameSigning()
      ensures reply.Some? ==> MaySay(signer.view, reply.value)
      ensures reply.Some? && signer.view == Stale ==> now < signer.staleUntil + latency
    {
      hide Inv;
      Interfere();
      var before: nat :| true;
      now := now + before;
      SignerMoves();
      var b: Bytes :| true;
      var arrives: bool :| true;
      reply := if arrives && MaySay(signer.view, b) then Some(b) else None;
      Interfere();
      var took: nat :| true;
      now := now + if reply.Some? && took > latency then latency else took;
    }

    /** `page` is the one of `sig` that its page number says. */
    static predicate IsPageOf(page: Bytes, sig: seq<Bytes>) {
      CompletePages(sig) && |page| == SIGNATURE_LEN && page[2] < SIGNATURE_PAGES && page == sig[page[2]]
    }

    /** GET F1. The page pointer moves by any amount, also when the reply is lost; a signer
        that has not finished may answer anything. */
    method FetchPage() returns (reply: Option<Bytes>)
      requires Inv()
      modifies this`ready, this`nextPage, this`nonceId, this`sending, this`history, this`cmd, this`queued,
               this`sent, this`got, this`acks, this`lead, this`now, this`signer
      ensures Inv() && Rely() && SameSigning()
      ensures reply.Some? ==> |reply.value| == SIGNATURE_LEN
      ensures reply.Some? && signer.view == Signed ==> IsPageOf(reply.value, signer.sig)
    {
      hide Inv;
      Interfere();
      SignerMoves();
      reply := SignerAnswersPage();
      Interfere();
      var took: nat :| true;
      now := now + took;
    }

    method SignerAnswersPage() returns (reply: Option<Bytes>)
      requires Inv()
      modifies this`signer
      ensures Inv() && signer == old(signer).(pointer := signer.pointer)
      ensures reply.Some? ==> |reply.value| == SIGNATURE_LEN
      ensures reply.Some? && signer.view == Signed ==> IsPageOf(reply.value, signer.sig)
    {
      hide Explains, After, Enabled, Nonces, EndsWith, QueueOk;
      var jump: nat :| true;
      var b: Bytes :| true;
      var arrives: bool :| true;
      if signer.view == Signed {
        var p := (signer.pointer + jump) % SIGNATURE_PAGES;
        signer := signer.(pointer := p + 1);
        reply := if arrives then Some(signer.sig[p]) else None;
      } else {
        reply := if arrives && |b| == SIGNATURE_LEN then Some(b) else None;
      }
    }

    // ---- Core 1: the signer side ----

    /** The console's latest nonce is complete and was passed on as far as it ever will be. */
    ghost predicate RoundDone()
      reads this`busy, this`sent, this`got
    {
      busy && |sent| == NONCE_PAGES && got == NONCE_PAGES
    }

    /** The end of `fetch_signature`: everything goes into the cache in one critical section. */
    method PublishSignature(state: Bytes, pages: seq<Bytes>)
      requires Inv() && FinalState(state) && CompletePages(pages)
      requires orderly ==> signer.view == Signed && pages == signer.sig && Latest(signer.input)
      modifies this`ready, this`readyState, this`signature, this`nextPage, this`history, this`published,
               this`pubInput, this`pubSig
      ensures Inv()
      ensures State() == After(old(State()), Publish(state, pages))
      ensures history == old(history) + [Publish(state, pages)] && published == old(published) + [(state, pages)]
      ensures orderly ==> Fresh() && pubInput == signer.input && pubSig == signer.sig
    {
      hide Explains, QueueInv, PassedOnInv, LaterRefused, Nonces, EndsWith, FiveNoncePages;
      StoreSignature(state, pages);
      hide CacheInv, RewriteAll;
      pubInput, pubSig := signer.input, signer.sig;
    }

    method StoreSignature(state: Bytes, pages: seq<Bytes>)
      requires CacheInv() && FinalState(state) && CompletePages(pages)
      modifies this`ready, this`readyState, this`signature, this`nextPage, this`history, this`published
      ensures CacheInv()
      ensures State() == After(old(State()), Publish(state, pages))
      ensures history == old(history) + [Publish(state, pages)] && published == old(published) + [(state, pages)]
      ensures signature == RewriteAll(pages, nonceId) && Nonces(history) == Nonces(old(history))
    {
      hide Explains, Nonces;
      NoncesNext(history, Publish(state, pages));
      ExplainsNext(history, State(), published, Publish(state, pages));
      readyState := state[1 := nonceId];
      signature := RewriteAll(pages, nonceId);
      nextPage := 0;
      ready := true;
      history := history + [Publish(state, pages)];
      published := published + [(state, pages)];
    }

    /** The polling loop of `fetch_signature`. It ends on the first believed "ready" or when
        the time is up; if a signing had begun, a believed "ready" is of that signing. */
    method PollUntilReady() returns (state: Bytes, believed: bool, ghost polls: seq<Poll>, ghost waited: nat)
      requires Inv()
      modifies this`ready, this`nextPage, this`nonceId, this`sending, this`history, this`cmd, this`queued,
               this`sent, this`got, this`acks, this`lead, this`now, this`io, this`signer
      ensures Inv() && Rely() && SameSigning()
      ensures believed ==> FinalState(state)
      ensures believed && old(Begun()) ==> signer.view == Signed
      ensures Paced(polls) && (forall k :: 0 <= k < |polls| ==> !Believed(polls[..k]))
      ensures believed <==> Believed(polls)
      ensures !believed ==> waited >= SIGNER_TIMEOUT
      ensures io == old(io) + PollsIo(polls)
    {
      hide Inv, Believed, SeenSigning, Paced, PollsIo, StillPolling, Says, MaySay;
      NoPolls();
      var start := now;
      var seenSigning := false;
      state, believed, polls, waited := Zeros(STATE_LEN), false, [], 0;
      while true
        invariant Inv() && Rely() && SameSigning() && old(now) <= start <= now
        invariant StillPolling(polls)
        invariant polls != [] ==> polls[|polls| - 1].answered + SIGNER_POLL <= now - start
        invariant seenSigning <==> SeenSigning(polls)
        invariant old(Begun()) && seenSigning ==> signer.view == Signing || signer.view == Signed
        invariant io == old(io) + PollsIo(polls)
        decreases SIGNER_TIMEOUT - (now - start)
      {
        if now - start >= SIGNER_TIMEOUT {
          waited := now - start;
          PolledInVain(polls);
          return;
        }
        ghost var p;
        state, seenSigning, believed, p := PollTurn(start, seenSigning);
        PollMore(polls, p);
        polls := polls + [p];
        if believed {
          return;
        }
      }
    }

    /** A signing has begun, and once it was seen the signer is past showing the previous one. */
    static predicate MayBelieve(v: View, seenSigning: bool) {
      v != Idle && (seenSigning ==> v != Stale)
    }

    /** One turn of the polling loop: a poll, and a pause if it goes on. */
    method PollTurn(start: nat, seenBefore: bool)
      returns (state: Bytes, seenSigning: bool, believed: bool, ghost p: Poll)
      requires Inv() && start <= now
      modifies this`ready, this`nextPage, this`nonceId, this`sending, this`history, this`cmd, this`queued,
               this`sent, this`got, this`acks, this`lead, this`now, this`io, this`signer
      ensures Inv() && Rely() && SameSigning()
      ensures p.asked == old(now) - start <= p.answered
      ensures if believed then now - start == p.answered else now - start >= p.answered + SIGNER_POLL
      ensures seenSigning <==> seenBefore || Says(p, STATE_SIGNING)
      ensures believed <==> Says(p, STATE_READY) && (seenSigning || p.answered >= STALE_READY_GRACE)
      ensures believed ==> FinalState(state)
      ensures old(signer.view) != Idle && Says(p, STATE_SIGNING) ==> signer.view == Signing
      ensures believed && MayBelieve(old(signer.view), seenBefore) && signer.staleUntil <= start + staleWindow ==>
                signer.view == Signed
      ensures io == old(io) + [PollIo(p)] + (if believed then [] else [PauseIo(SIGNER_POLL)])
    {
      hide Inv, Says;
      state, seenSigning, believed, p := PollOnce(start, seenBefore);
      io := io + [PollIo(p)];
      if !believed {
        Pause(SIGNER_POLL);
      }
    }

    /** One poll of F2, and whether its "ready" is believed. */
    method PollOnce(start: nat, seenBefore: bool)
      returns (state: Bytes, seenSigning: bool, believed: bool, ghost p: Poll)
      requires Inv() && start <= now
      modifies this`ready, this`nextPage, this`nonceId, this`sending, this`history, this`cmd, this`queued,
               this`sent, this`got, this`acks, this`lead, this`now, this`signer
      ensures Inv() && Rely() && SameSigning()
      ensures p.asked == old(now) - start && p.answered == now - start
      ensures seenSigning <==> seenBefore || Says(p, STATE_SIGNING)
      ensures believed <==> Says(p, STATE_READY) && (seenSigning || p.answered >= STALE_READY_GRACE)
      ensures believed ==> FinalState(state)
      ensures old(signer.view) != Idle && Says(p, STATE_SIGNING) ==> signer.view == Signing
      ensures believed && MayBelieve(old(signer.view), seenBefore) && signer.staleUntil <= start + staleWindow ==>
                signer.view == Signed
    {
      hide CacheInv, OrderInv, SentInv;
      state := Zeros(STATE_LEN);
      var reply := PollSigner();
      p := Poll(old(now) - start, reply, now - start);
      seenSigning, believed := seenBefore, false;
      if reply.Some? {
        state := reply.value;
        seenSigning := seenSigning || state[2] == STATE_SIGNING;
        believed := state[2] == STATE_READY && (seenSigning || now - start >= STALE_READY_GRACE);
      }
    }

    /** The page loop of `fetch_signature`: up to the first page lost or out of place. If the
        signer has finished, a complete set is its one signature, page for page. */
    method FetchPages() returns (pages: seq<Bytes>, lost: bool, ghost replies: seq<Option<Bytes>>)
      requires Inv()
      modifies this`ready, this`nextPage, this`nonceId, this`sending, this`history, this`cmd, this`queued,
               this`sent, this`got, this`acks, this`lead, this`now, this`io, this`signer
      ensures Inv() && Rely() && SameSigning()
      ensures !lost ==> CompletePages(pages) && |replies| == SIGNATURE_PAGES && PagesSoFar(replies)
      ensures !lost ==> forall i :: 0 <= i < SIGNATURE_PAGES ==> replies[i] == Some(pages[i])
      ensures !lost && old(signer.view) == Signed ==> pages == signer.sig
      ensures lost ==>
                && 0 < |replies| <= SIGNATURE_PAGES
                && PagesSoFar(replies[..|replies| - 1])
                && !RightPage(replies[|replies| - 1], |replies| - 1)
      ensures io == old(io) + PagesIo(replies)
    {
      hide Inv;
      pages, replies := [], [];
      for i := 0 to SIGNATURE_PAGES
        invariant Inv() && Rely() && SameSigning()
        invariant |replies| == |pages| == i && PagesSoFar(replies)
        invariant forall k :: 0 <= k < i ==> replies[k] == Some(pages[k]) && RightPage(Some(pages[k]), k)
        invariant old(signer.view) == Signed ==> forall k :: 0 <= k < i ==> IsPageOf(pages[k], signer.sig)
        invariant io == old(io) + PagesIo(replies)
      {
        var page := FetchPage();
        io := io + [PageIo(page)];
        assert PagesIo(replies + [page]) == PagesIo(replies) + [PageIo(page)];
        replies := replies + [page];
        if page.None? || page.value[2] != i {
          assert replies[..i] == replies[..|replies| - 1];
          lost := true;
          return;
        }
        pages := pages + [page.value];
      }
      lost := false;
      if old(signer.view) == Signed {
        assert IsPageOf(pages[0], signer.sig);
        assert forall k :: 0 <= k < SIGNATURE_PAGES ==> pages[k][2] == k && pages[k] == signer.sig[k];
      }
    }

    /** What a call of `fetch_signature` amounts to: it publishes exactly the pages it read
        when it is done, and nothing otherwise. */
    twostate predicate Fetched(f: FetchLog)
      reads this`published
    {
      && FetchOk(f)
      && (f.outcome != Done ==> published == old(published))
      && (f.outcome == Done ==>
            && published == old(published) + [Newest()]
            && |Newest().1| == |f.pages|
            && forall i :: 0 <= i < |f.pages| ==> f.pages[i] == Some(Newest().1[i]))
    }

    /** The latest publication. */
    ghost function Newest(): (Bytes, seq<Bytes>)
      reads this`published
    {
      if published == [] then ([], []) else published[|published| - 1]
    }

    /** `fetch_signature`. */
    method FetchSignature() returns (outcome: Fetch, ghost f: FetchLog)
      requires Inv() && (orderly ==> RoundDone() && Begun() && Latest(signer.input))
      modifies this`ready, this`nextPage, this`nonceId, this`sending, this`history, this`cmd, this`queued,
               this`sent, this`got, this`acks, this`lead, this`now, this`io, this`signer,
               this`readyState, this`signature, this`published, this`pubInput, this`pubSig
      ensures Inv() && SameSigning() && Grown()
      ensures orderly ==> RoundDone() && sent == old(sent) && acks == old(acks)
      ensures Fetched(f) && f.outcome == outcome
      ensures outcome == Done && old(Begun()) ==> Newest().1 == signer.sig
      ensures outcome == Done && orderly ==> ready && Fresh() && pubInput == signer.input && pubSig == signer.sig
      ensures io == old(io) + FetchIo(f)
    {
      hide Inv, Believed, SeenSigning, Paced, PollsIo, LaterRefused, FetchOk, PagesSoFar, RightPage;
      ghost var polls, waited, replies;
      var state, believed;
      state, believed, polls, waited := PollUntilReady();
      if !believed {
        GaveUp(polls, waited);
        outcome, f := NotReady, FetchLog(polls, [], waited, NotReady);
        return;
      }
      var lost;
      lost, replies := ReadAndPublish(state);
      PagesFetched(polls, waited, replies, lost);
      outcome := if lost then PageLost else Done;
      f := FetchLog(polls, replies, waited, outcome);
    }

    /** The second half of `fetch_signature`: every page, then the publication. */
    method ReadAndPublish(state: Bytes) returns (lost: bool, ghost replies: seq<Option<Bytes>>)
      requires Inv() && FinalState(state)
      requires orderly ==> RoundDone() && signer.view == Signed && Latest(signer.input)
      modifies this`ready, this`nextPage, this`nonceId, this`sending, this`history, this`cmd, this`queued,
               this`sent, this`got, this`acks, this`lead, this`now, this`io, this`signer,
               this`readyState, this`signature, this`published, this`pubInput, this`pubSig
      ensures Inv() && Rely() && SameSigning()
      ensures lost ==> published == old(published)
      ensures lost ==>
                && 0 < |replies| <= SIGNATURE_PAGES
                && PagesSoFar(replies[..|replies| - 1])
                && !RightPage(replies[|replies| - 1], |replies| - 1)
      ensures !lost ==>
                && PagesSoFar(replies) && |replies| == SIGNATURE_PAGES
                && published == old(published) + [Newest()] && |Newest().1| == SIGNATURE_PAGES
                && forall i :: 0 <= i < SIGNATURE_PAGES ==> replies[i] == Some(Newest().1[i])
      ensures !lost && old(signer.view) == Signed ==> Newest().1 == signer.sig
      ensures !lost && orderly ==> ready && Fresh() && pubInput == signer.input && pubSig == signer.sig
      ensures io == old(io) + PagesIo(replies)
    {
      hide Inv, PagesSoFar, RightPage, LaterRefused;
      var pages;
      pages, lost, replies := FetchPages();
      if !lost {
        PublishSignature(state, pages);
      }
    }

    /** The start of a pass of `sign`: F3, then the nonce again. Either the signer has taken
        all five pages and has begun to sign exactly these, or the pass ends. */
    method StartOver() returns (sentAll: bool, ghost taken: seq<bool>)
      requires Inv() && (orderly ==> RoundDone() && nonce == sent)
      modifies this`ready, this`nextPage, this`nonceId, this`sending, this`history, this`cmd, this`queued,
               this`sent, this`got, this`acks, this`lead, this`now, this`io, this`signer
      ensures Inv() && Rely()
      ensures 0 < |taken| <= NONCE_PAGES && AllTaken(taken[..|taken| - 1])
      ensures sentAll <==> |taken| == NONCE_PAGES && AllTaken(taken)
      ensures !sentAll ==> !AllTaken(taken)
      ensures orderly && sentAll ==> RoundDone() && Begun() && signer.input == nonce == sent
      ensures |nonce| == NONCE_PAGES && io == old(io) + StartOverIo(nonce, taken)
    {
      hide Inv, ResendIo;
      Pause(RESIGN_PAUSE);
      ResetSigner();
      Pause(RESET_SETTLE);
      PagesHeld();
      sentAll, taken := ResendAll();
    }

    lemma NotTaken(data: Bytes)
      requires |signer.buffer| == NONCE_PAGES
      ensures TakePage(signer.buffer, data, false) == signer.buffer
    {
    }

    lemma PagesHeld()
      requires Inv()
      ensures FiveNoncePages(nonce) && |signer.buffer| == NONCE_PAGES
      ensures orderly && RoundDone() && nonce == sent ==> InPlace(nonce)
    {
    }

    /** The page loop of `sign`: up to the first page refused. */
    method ResendAll() returns (sentAll: bool, ghost taken: seq<bool>)
      requires Inv() && |nonce| == |signer.buffer| == NONCE_PAGES
      requires orderly ==> RoundDone() && nonce == sent && InPlace(nonce)
      modifies this`ready, this`nextPage, this`nonceId, this`sending, this`history, this`cmd, this`queued,
               this`sent, this`got, this`acks, this`lead, this`now, this`io, this`signer
      ensures Inv() && Rely()
      ensures 0 < |taken| <= NONCE_PAGES && AllTaken(taken[..|taken| - 1])
      ensures sentAll <==> |taken| == NONCE_PAGES && AllTaken(taken)
      ensures !sentAll ==> !AllTaken(taken)
      ensures orderly && sentAll ==> RoundDone() && Begun() && signer.input == nonce == sent
      ensures io == old(io) + ResendIo(nonce, taken)
    {
      hide Inv, Resent, ResendIo, AllTaken;
      ResentNone();
      NonePassed(nonce);
      taken := [];
      for k := 0 to NONCE_PAGES
        invariant Inv() && Rely() && (orderly ==> RoundDone() && nonce == sent)
        invariant |taken| == k && AllTaken(taken) && taken[..k] == taken
        invariant taken != [] ==> AllTaken(taken[..k - 1])
        invariant orderly ==> Resent(k)
        invariant io == old(io) + ResendIo(nonce, taken)
      {
        var acked := ResendPage(k);
        OneMorePage(nonce, taken, acked);
        taken := taken + [acked];
        if !acked {
          sentAll := false;
          return;
        }
      }
      ResentFive();
      sentAll := true;
    }

    lemma ResentNone()
      requires |nonce| == |signer.buffer| == NONCE_PAGES
      ensures Resent(0)
    {
    }

    lemma ResentFive()
      ensures Resent(NONCE_PAGES) ==> Begun() && signer.input == nonce
    {
    }

    /** The signer holds the first `k` pages of `NONCE`, and with the last it signs them. */
    ghost predicate Resent(k: nat)
      reads this`nonce, this`signer, this`now
    {
      && |signer.buffer| == |nonce| == NONCE_PAGES && k <= NONCE_PAGES
      && signer.buffer[..k] == nonce[..k]
      && (k == NONCE_PAGES ==> Begun() && signer.input == nonce)
    }

    method ResendPage(k: nat) returns (acked: bool)
      requires Inv() && k < NONCE_PAGES == |nonce|
      requires orderly ==> RoundDone() && nonce == sent && InPlace(nonce) && Resent(k)
      modifies this`ready, this`nextPage, this`nonceId, this`sending, this`history, this`cmd, this`queued,
               this`sent, this`got, this`acks, this`lead, this`now, this`io, this`signer
      ensures Inv() && Rely()
      ensures orderly && acked ==> Resent(k + 1)
      ensures io == old(io) + [NonceIo(nonce[k], acked)] + (if acked then [PauseIo(NONCE_PAGE_GAP)] else [])
    {
      hide Inv, LaterRefused;
      ghost var taken;
      acked, taken := SetNonce(nonce[k]);
      assert orderly && acked ==> signer.buffer[..k + 1] == nonce[..k + 1];
      if acked {
        Pause(NONCE_PAGE_GAP);
      }
    }

    /** Every page stands at the place its page number says. */
    static predicate InPlace(pages: seq<Bytes>) {
      forall j :: 0 <= j < |pages| ==> |pages[j]| == NONCE_LEN && pages[j][2] == j
    }

    /** One pass of the loop in `sign`. */
    method SignOnce(again: bool) returns (outcome: Option<Fetch>, ghost a: Attempt)
      requires Inv() && (orderly ==> RoundDone() && nonce == sent)
      requires orderly && !again ==> Begun() && Latest(signer.input)
      modifies this`ready, this`nextPage, this`nonceId, this`sending, this`history, this`cmd, this`queued,
               this`sent, this`got, this`acks, this`lead, this`now, this`io, this`signer,
               this`readyState, this`signature, this`published, this`pubInput, this`pubSig
      ensures Inv() && Grown()
      ensures orderly ==> RoundDone() && sent == old(sent) && acks == old(acks)
      ensures AttemptOk(a) && a.resent == again
      ensures outcome.Some? <==> a.fetch.Some?
      ensures outcome.Some? ==> outcome.value == a.fetch.value.outcome
      ensures outcome == Some(Done) && orderly ==> ready && Fresh()
      ensures |nonce| == NONCE_PAGES && io == old(io) + AttemptIo(a, nonce)
    {
      hide Inv, FetchOk, FetchIo, StartOverIo, LaterRefused;
      PagesHeld();
      ghost var taken: seq<bool> := [];
      if again {
        var sentAll;
        sentAll, taken := StartOver();
        if !sentAll {
          outcome, a := None, Attempt(true, taken, None);
          return;
        }
        AllRead();
      }
      var fetch;
      ghost var f;
      fetch, f := FetchSignature();
      outcome, a := Some(fetch), Attempt(again, taken, Some(f));
    }

    lemma AllRead()
      requires Inv() && (orderly ==> RoundDone() && signer.input == sent)
      ensures orderly ==> Latest(signer.input)
    {
    }

    /** `sign`: at most four passes, the first of them without resending unless told to. When
        it is done the cached signature is fresh; giving up on the signer resets it. */
    method Sign(resend: bool) returns (ghost log: seq<Attempt>)
      requires Inv() && (orderly ==> RoundDone() && nonce == sent)
      requires orderly && !resend ==> Begun() && Latest(signer.input)
      modifies this`ready, this`nextPage, this`nonceId, this`sending, this`history, this`cmd, this`queued,
               this`sent, this`got, this`acks, this`lead, this`now, this`io, this`signer,
               this`readyState, this`signature, this`published, this`pubInput, this`pubSig
      ensures Inv() && Grown()
      ensures orderly ==> RoundDone() && sent == old(sent) && acks == old(acks)
      ensures SignOk(log, resend) && |nonce| == NONCE_PAGES && Fits(log, nonce)
      ensures io == old(io) + SignIo(log, nonce)
      ensures log[|log| - 1].fetch.Some? && log[|log| - 1].fetch.value.outcome == Done && orderly ==> ready && Fresh()
    {
      hide Inv, AttemptOk, AttemptIo, AttemptsIo, AllLost, SignOk, LaterRefused, Fits;
      PagesHeld();
      NoAttempts(resend, nonce);
      log := [];
      for attempt := 1 to SIGN_ATTEMPTS + 1
        invariant Inv() && Grown()
        invariant orderly ==> RoundDone() && nonce == sent == old(sent) && acks == old(acks)
        invariant orderly && attempt == 1 && !resend ==> Begun() && Latest(signer.input)
        invariant |log| == attempt - 1 && AllLost(log, resend, nonce) && Fits(log, nonce)
        invariant log != [] ==> EndsWithReset(log)
        invariant |log| == SIGN_ATTEMPTS ==> SignOk(log, resend)
        invariant io == old(io) + AttemptsIo(log, nonce)
      {
        var outcome;
        ghost var a;
        outcome, a := SignOnce(attempt > 1 || resend);
        OneMoreAttempt(log, a, resend, nonce);
        log := log + [a];
        match outcome
        case None => return;
        case Some(Done) => return;
        case Some(PageLost) =>
        case Some(NotReady) =>
          ResetSigner();
          return;
      }
      ResetSigner();
    }

    /** `CMD.receive`: the oldest command. Core 1 then has it in hand. */
    method Receive() returns (c: Cmd)
      requires Inv() && !busy && cmd != []
      modifies this`cmd, this`hand, this`busy, this`lead
      ensures Inv() && c == old(cmd)[0] && cmd == old(cmd)[1..]
      ensures c.Reset? ==> !busy && hand.None? && (orderly ==> ResetSafe())
      ensures c.Nonce? ==> busy && hand == Some(c.page)
    {
      hide Explains, After, Enabled, Nonces, EndsWith, PassedOnInv, QueueOk, LaterRefused, Fresh, Valid, ValidSigner, FiveNoncePages;
      c := cmd[0];
      if orderly && sent != [] {
        HeadTaken(sent, Next(), lead, sending, cmd);
        if c.Reset? {
          lead := if lead > 0 then lead - 1 else 0;
        }
      }
      cmd := cmd[1..];
      if c.Nonce? {
        busy, hand := true, Some(c.page);
      }
    }

    /** The page in hand goes into `NONCE`. */
    method KeepPage(data: Bytes)
      requires Inv() && busy && hand == Some(data)
      modifies this`nonce
      ensures Inv()
      ensures nonce == if IsPage(data) then old(nonce)[data[2] := data] else old(nonce)
    {
      hide Explains, After, Enabled, Nonces, EndsWith, LaterRefused;
      if |data| > 2 && data[2] < NONCE_PAGES && |data| == NONCE_LEN {
        nonce := nonce[data[2] := data];
      }
    }

    /** The page core 1 has in hand is the next one of the round. */
    ghost predicate InHand(data: Bytes)
      reads this`sent, this`got, this`acks, this`nonce, this`signer
    {
      && got < |sent| <= NONCE_PAGES && IsPage(data) && data[2] == got && sent[got] == data
      && |acks| == got && FiveNoncePages(nonce) && FiveNoncePages(signer.buffer)
      && nonce[..got] == sent[..got]
      && (forall j :: 0 <= j < got && acks[j] ==> signer.buffer[j] == sent[j])
    }

    lemma NextInHand(data: Bytes)
      requires Inv() && hand == Some(data)
      ensures orderly ==> !ready && QueueInv() && SentInv()
      ensures orderly && sent != [] ==> InHand(data) && (0 < got ==> (nonceRefused <==> LaterRefused(acks)))
    {
    }

    /** It has been kept and given to the signer, which took it or not. */
    ghost predicate JustPassed(data: Bytes, acked: bool)
      reads this`sent, this`got, this`acks, this`nonce, this`signer, this`ready, this`now,
            this`sending, this`cmd, this`hand, this`lead, this`history
    {
      && !ready && QueueInv() && SentInv()
      && (sent != [] ==> InHand(data) && nonce[got] == data && (acked ==> signer.buffer[got] == data))
      && (acked && IsPage(data) && data[2] == LAST_NONCE_PAGE ==> Begun() && signer.input == signer.buffer)
    }

    /** One page of the console's nonce, as `handle` starts with it: kept, and passed on. */
    method PassPage(data: Bytes) returns (acked: bool)
      requires Inv() && busy && hand == Some(data)
      modifies this`ready, this`nextPage, this`nonceId, this`sending, this`history, this`cmd, this`queued,
               this`sent, this`got, this`acks, this`lead, this`now, this`io, this`signer, this`nonce
      ensures Inv() && Rely()
      ensures nonce == if IsPage(data) then old(nonce)[data[2] := data] else old(nonce)
      ensures orderly ==> JustPassed(data, acked)
      ensures orderly && sent != [] && got > 0 ==> (nonceRefused <==> LaterRefused(acks))
      ensures io == old(io) + [NonceIo(data, acked)]
    {
      hide Inv, LaterRefused, QueueInv;
      PagesHeld();
      KeepPage(data);
      ghost var taken;
      acked, taken := SetNonce(data);
      NextInHand(data);
    }

    /** Core 1 is done with the page in hand. */
    method PagePassed(data: Bytes, acked: bool)
      requires busy && hand == Some(data) && CacheInv()
      requires staleWindow + latency <= STALE_READY_GRACE
      requires orderly ==> JustPassed(data, acked)
      requires orderly && 0 < |sent| && got + 1 < NONCE_PAGES ==> (nonceRefused <==> LaterRefused(acks + [acked]))
      modifies this`got, this`acks, this`hand
      ensures Inv() && hand.None?
      ensures orderly && HasNumber(data, LAST_NONCE_PAGE) ==>
                && RoundDone() && nonce == sent && acks == old(acks) + [acked] && |acks| == NONCE_PAGES
                && forall j :: 0 <= j < NONCE_PAGES && acks[j] ==> signer.buffer[j] == sent[j]
    {
      hide Explains, After, Enabled, Nonces, EndsWith, LaterRefused, QueueOk;
      if orderly && sent != [] {
        assert forall j :: 0 <= j < got ==> nonce[..got][j] == nonce[j] && sent[..got][j] == sent[j];
        got, acks := got + 1, acks + [acked];
      }
      hand := None;
    }

    lemma Bounds()
      requires Inv()
      ensures CacheInv() && staleWindow + latency <= STALE_READY_GRACE
    {
    }

    method PageDone()
      requires Inv() && hand.None?
      modifies this`busy
      ensures Inv() && !busy
    {
      hide CacheInv, OrderInv, SentInv;
      busy := false;
    }

    /** `handle` after a page that is not the last. */
    method EarlierPage(data: Bytes, acked: bool)
      requires Inv() && busy && hand == Some(data) && !HasNumber(data, LAST_NONCE_PAGE)
      requires orderly ==> JustPassed(data, acked)
      requires orderly && sent != [] && got > 0 ==> (nonceRefused <==> LaterRefused(acks))
      modifies this`nonceRefused, this`got, this`acks, this`hand, this`busy
      ensures Inv() && !busy && hand.None?
      ensures nonceRefused == RefusedAfter(old(nonceRefused), data, acked)
    {
      hide Inv, CacheInv, SentInv, QueueInv, LaterRefused;
      Bounds();
      OneMoreAck(acks, acked);
      if !acked {
        nonceRefused := true;
      }
      if HasNumber(data, 0) {
        nonceRefused := false;
      }
      PagePassed(data, acked);
      PageDone();
    }

    lemma LastInHand(data: Bytes, acked: bool)
      requires JustPassed(data, acked) && HasNumber(data, LAST_NONCE_PAGE)
      ensures sent != [] ==> got > 0 && acks != []
    {
    }

    /** `handle` after the last page: the round is signed, resent first if a page was refused. */
    method LastPage(data: Bytes, acked: bool) returns (ghost log: seq<Attempt>)
      requires Inv() && busy && hand == Some(data) && HasNumber(data, LAST_NONCE_PAGE)
      requires orderly ==> JustPassed(data, acked)
      requires orderly && sent != [] && got > 0 ==> (nonceRefused <==> LaterRefused(acks))
      modifies this
      ensures Inv() && !busy && hand.None? && Grown()
      ensures nonce == old(nonce) && !nonceRefused && reset == old(reset)
      ensures |nonce| == NONCE_PAGES && Fits(log, nonce)
      ensures SignOk(log, old(nonceRefused) || !acked) && io == old(io) + SignIo(log, nonce)
      ensures log[|log| - 1].fetch.Some? && log[|log| - 1].fetch.value.outcome == Done && orderly ==> ready && Fresh()
    {
      hide Inv, CacheInv, JustPassed, RoundDone, LaterRefused, SignOk, SignIo, Latest;
      Bounds();
      if orderly {
        LastInHand(data, acked);
      }
      OneMoreAck(acks, acked);
      if !acked {
        nonceRefused := true;
      }
      var resend := TakeRefused(data, acked);
      log := Sign(resend);
      PageDone();
    }

    /** `NONCE_REFUSED.swap(false)`: without a resend, the signer is signing the round. */
    method TakeRefused(data: Bytes, acked: bool) returns (resend: bool)
      requires busy && hand == Some(data) && HasNumber(data, LAST_NONCE_PAGE) && (!acked ==> nonceRefused)
      requires CacheInv() && staleWindow + latency <= STALE_READY_GRACE
      requires orderly ==> JustPassed(data, acked)
      requires orderly && sent != [] ==> (nonceRefused <==> LaterRefused(acks + [acked]))
      modifies this`nonceRefused, this`got, this`acks, this`hand
      ensures Inv() && hand.None? && !nonceRefused && resend == old(nonceRefused)
      ensures orderly ==> RoundDone() && nonce == sent
      ensures orderly && !resend ==> Begun() && Latest(signer.input)
    {
      hide Explains, After, Enabled, Nonces, EndsWith, QueueOk;
      resend := nonceRefused;
      nonceRefused := false;
      PagePassed(data, acked);
      if orderly && !resend {
        assert forall j :: 1 <= j < NONCE_PAGES ==> acks[j];
        assert signer.buffer[1..] == sent[1..];
        assert acks[0] ==> signer.buffer == sent;
      }
    }

    /** `handle` for a nonce page. */
    method HandlePage(data: Bytes) returns (ghost acked: bool, ghost log: seq<Attempt>)
      requires Inv() && busy && hand == Some(data)
      modifies this
      ensures Inv() && !busy && hand.None? && Grown()
      ensures nonce == if IsPage(data) then old(nonce)[data[2] := data] else old(nonce)
      ensures nonceRefused == RefusedAfter(old(nonceRefused), data, acked)
      ensures |nonce| == NONCE_PAGES && Fits(log, nonce)
      ensures HasNumber(data, LAST_NONCE_PAGE) ==>
                SignOk(log, old(nonceRefused) || !acked) && io == old(io) + [NonceIo(data, acked)] + SignIo(log, nonce)
      ensures !HasNumber(data, LAST_NONCE_PAGE) ==> log == [] && io == old(io) + [NonceIo(data, acked)]
      ensures reset == old(reset)
    {
      hide Inv, LaterRefused, SignOk, SignIo, JustPassed;
      log := [];
      PagesHeld();
      var ok := PassPage(data);
      acked := ok;
      if HasNumber(data, LAST_NONCE_PAGE) {
        log := LastPage(data, ok);
      } else {
        EarlierPage(data, ok);
      }
    }

    /** F3 is read up to `tries` times, with pauses in between. */
    static function ProbeIo(tries: nat): seq<Io> {
      if tries == 0 then []
      else ProbeIo(tries - 1) + (if tries > 1 then [PauseIo(SIGNER_PROBE_PAUSE)] else []) + [ResetIo]
    }

    /** A GET F3 whose reply is wanted. */
    method ProbeSigner() returns (reply: Option<Bytes>)
      requires Inv() && (orderly ==> ResetSafe())
      modifies this`ready, this`nextPage, this`nonceId, this`sending, this`history, this`cmd, this`queued,
               this`sent, this`got, this`acks, this`lead, this`now, this`io, this`signer
      ensures Inv() && Rely()
      ensures reply.Some? ==> |reply.value| == RESET_LEN
      ensures io == old(io) + [ResetIo]
    {
      hide Inv;
      ResetSigner();
      var b: Bytes :| true;
      var arrives: bool :| true;
      reply := if arrives && |b| == RESET_LEN then Some(b) else None;
    }

    method AdoptReset(answer: Bytes)
      requires Inv() && |answer| == RESET_LEN
      modifies this`reset, this`history
      ensures Inv() && reset == answer && history == old(history) + [AuthCache.AdoptReset(answer)]
    {
      hide Explains, OrderInv, Nonces;
      ExplainsNext(history, State(), published, AuthCache.AdoptReset(answer));
      NoncesNext(history, AuthCache.AdoptReset(answer));
      reset := answer;
      history := history + [AuthCache.AdoptReset(answer)];
    }

    /** `try_signer`: the device is taken for a signer if it answers one of five reads of F3,
        and the console's F3 is answered with that from then on. */
    method TrySigner() returns (signs: bool, replies: seq<Option<Bytes>>)
      requires Inv() && !busy && (orderly ==> ResetSafe())
      modifies this`ready, this`nextPage, this`nonceId, this`sending, this`history, this`cmd, this`queued,
               this`sent, this`got, this`acks, this`lead, this`now, this`io, this`signer, this`reset
      ensures Inv() && !busy
      ensures 1 <= |replies| <= 5 && io == old(io) + ProbeIo(|replies|)
      ensures forall i :: 0 <= i < |replies| - 1 ==> replies[i].None?
      ensures signs <==> replies[|replies| - 1].Some?
      ensures signs ==> replies[|replies| - 1] == Some(reset) && history != [] && history[|history| - 1] == AuthCache.AdoptReset(reset)
      ensures !signs ==> reset == old(reset) && |replies| == 5
    {
      hide Inv;
      replies := [];
      for attempt := 1 to SIGNER_PROBE_TRIES + 1
        invariant Inv() && !busy && (orderly ==> ResetSafe()) && reset == old(reset)
        invariant |replies| == attempt - 1 && forall i :: 0 <= i < |replies| ==> replies[i].None?
        invariant io == old(io) + ProbeIo(|replies|)
                  + (if 0 < |replies| < SIGNER_PROBE_TRIES then [PauseIo(SIGNER_PROBE_PAUSE)] else [])
      {
        var reply := ProbeSigner();
        replies := replies + [reply];
        if reply.Some? {
          AdoptReset(reply.value);
          signs := true;
          return;
        }
        if attempt < SIGNER_PROBE_TRIES {
          Pause(SIGNER_PROBE_PAUSE);
        }
      }
      signs := false;
    }

    /** `CMD.clear`. */
    method Clear()
      requires Inv() && !busy
      requires orderly ==> sent == [] || got == NONCE_PAGES
      modifies this`cmd, this`lead
      ensures Inv() && cmd == []
    {
      hide Explains, After, Enabled, Nonces, EndsWith, LaterRefused, PassedOnInv, Fresh;
      cmd, lead := [], 0;
    }

    /** `handle`, as a turn of `serve`. */
    method Handle(c: Cmd) returns (ghost t: Turn)
      requires Inv()
      requires c.Reset? ==> !busy && hand.None? && (orderly ==> ResetSafe())
      requires c.Nonce? ==> busy && hand == Some(c.page)
      modifies this
      ensures Inv() && !busy && hand.None? && reset == old(reset) && Grown()
      ensures TurnOk(t, old(nonceRefused)) && (t.PageTurn? ==> Fits(t.log, t.nonce)) && io == old(io) + TurnIo(t)
      ensures c.Reset? ==> t.ResetTurn? && nonceRefused == old(nonceRefused)
      ensures c.Nonce? ==>
                && t.PageTurn? && t.page == c.page && t.nonce == nonce
                && nonceRefused == RefusedAfter(old(nonceRefused), t.page, t.acked)
    {
      hide Inv, SignOk, SignIo, Fits, RefusedAfter;
      match c {
        case Reset =>
          ResetSigner();
          t := ResetTurn;
        case Nonce(page) =>
          ghost var acked, log;
          acked, log := HandlePage(page);
          t := PageTurn(page, acked, nonce, log);
          NoSignIo(nonce);
      }
    }

    lemma NoSignIo(nonce: seq<Bytes>)
      ensures Fits([], nonce) && SignIo([], nonce) == []
    {
    }

    /** The command a turn acted on. */
    static function CmdOf(t: Turn): Cmd {
      if t.ResetTurn? then Reset else Nonce(t.page)
    }

    static function CmdsOf(turns: seq<Turn>): (cs: seq<Cmd>)
      ensures |cs| == |turns| && forall i :: 0 <= i < |cs| ==> cs[i] == CmdOf(turns[i])
    {
      seq(|turns|, i requires 0 <= i < |turns| => CmdOf(turns[i]))
    }

    lemma OneMoreCmd(turns: seq<Turn>, t: Turn, before: seq<Cmd>, all: seq<Cmd>)
      requires before != [] && CmdsOf(turns) + before == all && CmdOf(t) == before[0]
      ensures CmdsOf(turns + [t]) + before[1..] == all
    {
      assert CmdsOf(turns + [t]) == CmdsOf(turns) + [before[0]];
    }

    /**
      Core 1's loop over the commands (`serve`): clears what was queued before there was a signer,
      then handles one command after the other, until it has handled `most` or waits with nothing
      to take. Every command that gets into the queue from then on is handled once, in order, or
      is still queued; none from before is. What it does to the signer is what its turns say.
     */
    method Serve(most: nat) returns (ghost turns: seq<Turn>)
      requires Inv() && !busy
      requires orderly ==> sent == [] || got == NONCE_PAGES
      modifies this
      ensures Inv() && !busy && reset == old(reset)
      ensures old(queued) <= queued && CmdsOf(turns) + cmd == queued[|old(queued)|..]
      ensures |turns| == most || (|turns| < most && cmd == [])
      ensures TurnsOk(turns, old(nonceRefused)) && nonceRefused == FlagAfter(old(nonceRefused), turns)
      ensures AllFit(turns) && io == old(io) + TurnsIo(turns)
    {
      hide Inv, TurnOk, TurnsOk, TurnsIo, TurnIo, AllFit, FlagAfter, RefusedAfter, Fits, CmdsOf;
      Clear();
      turns := [];
      NoTurns(nonceRefused);
      NoCmds();
      var left := most;
      while left > 0
        invariant |turns| + left == most
        invariant Inv() && !busy && reset == old(reset)
        invariant old(queued) <= queued && CmdsOf(turns) + cmd == queued[|old(queued)|..]
        invariant TurnsOk(turns, old(nonceRefused)) && nonceRefused == FlagAfter(old(nonceRefused), turns)
        invariant AllFit(turns) && io == old(io) + TurnsIo(turns)
      {
        ghost var t, waiting, before := ResetTurn, cmd, queued;
        Interfere();
        QueueTail(before, queued, |old(queued)|);
        assert CmdsOf(turns) + (waiting + queued[|before|..]) == CmdsOf(turns) + waiting + queued[|before|..];
        if cmd == [] {
          return;
        }
        before := queued;
        t := ServeTurn(turns, queued[|old(queued)|..]);
        QueueTail(before, queued, |old(queued)|);
        OneMoreTurn(turns, t, old(nonceRefused));
        turns := turns + [t];
        left := left - 1;
      }
    }

    lemma QueueTail(a: seq<Cmd>, b: seq<Cmd>, from: nat)
      requires a <= b && from <= |a|
      ensures a[from..] + b[|a|..] == b[from..]
    {
    }

    lemma NoCmds()
      ensures CmdsOf([]) == []
    {
    }

    /** The command waiting longest is taken out and handled. */
    method ServeTurn(ghost turns: seq<Turn>, ghost all: seq<Cmd>) returns (ghost t: Turn)
      requires Inv() && !busy && cmd != [] && CmdsOf(turns) + cmd == all
      modifies this
      ensures Inv() && !busy && reset == old(reset)
      ensures old(queued) <= queued && CmdsOf(turns + [t]) + cmd == all + queued[|old(queued)|..]
      ensures TurnOk(t, old(nonceRefused)) && (t.PageTurn? ==> Fits(t.log, t.nonce)) && io == old(io) + TurnIo(t)
      ensures nonceRefused == if t.PageTurn? then RefusedAfter(old(nonceRefused), t.page, t.acked) else old(nonceRefused)
    {
      hide Inv, TurnOk, TurnIo, RefusedAfter, Fits, CmdsOf;
      var c := Receive();
      t := Handle(c);
      OneMoreCmd(turns, t, old(cmd), all);
    }

    /**
      What holds in every state of every interleaving. The cache carries the id of the
      console's latest F0 when it is ready. If the console is orderly, the cached pages are
      then those of one signature the signer made, byte 1 apart, and what it signed are the
      console's latest five pages; for page 0 this needs that the signer took it or refused
      a later one too.
     */
    lemma ReadyMeans()
      requires Inv() && ready
      ensures nonceId == LatestNonceId(history) && Carries(State(), nonceId)
      ensures orderly ==> |sent| == NONCE_PAGES && |sent[4]| == NONCE_LEN && nonceId == sent[4][1]
      ensures orderly ==>
                && |sent| == |pubInput| == NONCE_PAGES && |acks| == NONCE_PAGES
                && NONCE_PAGES <= |Nonces(history)| && sent == Nonces(history)[|Nonces(history)| - NONCE_PAGES..]
                && (pubInput, pubSig) in signer.made && CompletePages(pubSig)
                && (forall i :: 0 <= i < SIGNATURE_PAGES ==> signature[i] == Rewrite(pubSig[i], nonceId))
                && (forall j :: 1 <= j < NONCE_PAGES ==> pubInput[j] == sent[j])
                && (acks[0] || LaterRefused(acks) ==> pubInput == sent)
    {
      hide QueueInv, LaterRefused;
      ReadyCarriesLatestId(history);
      if orderly {
        forall j | 1 <= j < NONCE_PAGES
          ensures pubInput[j] == sent[j]
        {
          assert pubInput[j] == pubInput[1..][j - 1];
        }
      }
    }
  }
}