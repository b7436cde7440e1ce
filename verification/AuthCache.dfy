/**
  The signature cache between the two cores (`STATE` in src/auth.rs) as a state machine.

  Every access to the cache is one critical section, so the interleavings of the console's
  control requests (core 0) with the signer side (core 1) are exactly the sequences of
  `Event`s below. The theorems hold of every such sequence: no assumption is made about the
  order of the console's requests.
 */
module AuthCache {
  import opened Common

  const ID_NONCE: byte := 0xf0
  const ID_SIGNATURE: byte := 0xf1
  const ID_STATE: byte := 0xf2
  const ID_RESET: byte := 0xf3

  const SIGNATURE_LEN: nat := 64
  const STATE_LEN: nat := 16
  const RESET_LEN: nat := 8
  const SIGNATURE_PAGES: nat := 19

  const STATE_SIGNING: byte := 0x10
  const STATE_READY: byte := 0x00

  const DEFAULT_RESET: Bytes := [0xf3, 0x00, 0x38, 0x38, 0x00, 0x00, 0x00, 0x00]

  datatype Cache = Cache(
    reset: Bytes,
    nonceId: byte,
    ready: bool,
    readyState: Bytes,
    signature: seq<Bytes>,
    nextPage: nat)

  /** One critical section. A read of the console carries the answer it was given. */
  datatype Event =
    | ReadReset(answer: Bytes)
    | ReadState(answer: Bytes)
    | ReadSignature(page: Option<Bytes>)
    | WriteNonce(data: Bytes)
    | Publish(state: Bytes, pages: seq<Bytes>)
    | AdoptReset(reset: Bytes)

  predicate Valid(c: Cache) {
    && |c.reset| == RESET_LEN
    && |c.readyState| == STATE_LEN
    && |c.signature| == SIGNATURE_PAGES
    && (forall i :: 0 <= i < SIGNATURE_PAGES ==> |c.signature[i]| == SIGNATURE_LEN)
    && c.nextPage <= SIGNATURE_PAGES
  }

  function Initial(): (c: Cache)
    ensures Valid(c) && !c.ready
  {
    Cache(DEFAULT_RESET, 0, false, Zeros(STATE_LEN),
          seq(SIGNATURE_PAGES, i => Zeros(SIGNATURE_LEN)), 0)
  }

  /** A complete signature as the signer side accepts it: every page in its place. */
  predicate CompletePages(pages: seq<Bytes>) {
    && |pages| == SIGNATURE_PAGES
    && forall i :: 0 <= i < SIGNATURE_PAGES ==> |pages[i]| == SIGNATURE_LEN && pages[i][2] == i
  }

  predicate FinalState(state: Bytes) {
    |state| == STATE_LEN && state[2] == STATE_READY
  }

  /** Byte 1 replaced by the console's nonce id. */
  function Rewrite(page: Bytes, id: byte): (r: Bytes)
    requires |page| >= 2
    ensures |r| == |page| && r[1] == id
    ensures forall i :: 0 <= i < |page| && i != 1 ==> r[i] == page[i]
  {
    page[1 := id]
  }

  function RewriteAll(pages: seq<Bytes>, id: byte): (r: seq<Bytes>)
    requires CompletePages(pages)
    ensures CompletePages(r)
    ensures forall i :: 0 <= i < SIGNATURE_PAGES ==> r[i] == Rewrite(pages[i], id)
  {
    seq(SIGNATURE_PAGES, i requires 0 <= i < SIGNATURE_PAGES => Rewrite(pages[i], id))
  }

  /** The "signing" answer, the only one the bridge makes up. */
  function BusyState(id: byte): (r: Bytes)
    ensures |r| == STATE_LEN && r[0] == ID_STATE && r[1] == id && r[2] == STATE_SIGNING
  {
    [ID_STATE, id, STATE_SIGNING] + Zeros(STATE_LEN - 3)
  }

  function StateAnswer(c: Cache): Bytes {
    if c.ready then c.readyState else BusyState(c.nonceId)
  }

  function SignatureAnswer(c: Cache): Option<Bytes>
    requires Valid(c)
  {
    if !c.ready || c.nextPage >= SIGNATURE_PAGES then None else Some(c.signature[c.nextPage])
  }

  /** The nonce id of an F0 report; a report too short to carry one counts as id 0. */
  function NonceIdOf(data: Bytes): byte {
    if |data| > 1 then data[1] else 0
  }

  /** May `e` happen in `c`? Reads are answered from the cache, publications are complete. */
  predicate Enabled(c: Cache, e: Event)
    requires Valid(c)
  {
    match e
    case ReadReset(answer) => answer == c.reset
    case ReadState(answer) => answer == StateAnswer(c)
    case ReadSignature(page) => page == SignatureAnswer(c)
    case WriteNonce(_) => true
    case Publish(state, pages) => FinalState(state) && CompletePages(pages)
    case AdoptReset(reset) => |reset| == RESET_LEN
  }

  function After(c: Cache, e: Event): (c': Cache)
    requires Valid(c) && Enabled(c, e)
    ensures Valid(c')
  {
    match e
    case ReadReset(_) => c.(ready := false, nextPage := 0)
    case ReadState(_) => c
    case ReadSignature(page) => if page.Some? then c.(nextPage := c.nextPage + 1) else c
    case WriteNonce(data) => c.(ready := false, nextPage := 0, nonceId := NonceIdOf(data))
    case Publish(state, pages) =>
      c.(readyState := Rewrite(state, c.nonceId), signature := RewriteAll(pages, c.nonceId),
         nextPage := 0, ready := true)
    case AdoptReset(reset) => c.(reset := reset)
  }

  /** `es` can happen one after the other from `c`. */
  predicate IsRun(c: Cache, es: seq<Event>)
    requires Valid(c)
    decreases |es|, 0
  {
    es == [] || (IsRun(c, es[..|es| - 1]) && Enabled(Run(c, es[..|es| - 1]), es[|es| - 1]))
  }

  function Run(c: Cache, es: seq<Event>): (c': Cache)
    requires Valid(c) && IsRun(c, es)
    ensures Valid(c')
    decreases |es|, 1
  {
    if es == [] then c else After(Run(c, es[..|es| - 1]), es[|es| - 1])
  }

  lemma RunExtend(c: Cache, es: seq<Event>, e: Event)
    requires Valid(c) && IsRun(c, es) && Enabled(Run(c, es), e)
    ensures IsRun(c, es + [e]) && Run(c, es + [e]) == After(Run(c, es), e)
  {
    assert (es + [e])[..|es|] == es;
  }

  lemma RunLast(c: Cache, es: seq<Event>, e: Event)
    requires Valid(c) && IsRun(c, es + [e])
    ensures IsRun(c, es) && Enabled(Run(c, es), e) && Run(c, es + [e]) == After(Run(c, es), e)
  {
    assert (es + [e])[..|es|] == es;
  }

  /** Every prefix of a run is a run. */
  lemma {:induction false} RunPrefix(c: Cache, es: seq<Event>, i: nat)
    requires Valid(c) && IsRun(c, es) && i <= |es|
    ensures IsRun(c, es[..i])
    decreases |es|
  {
    if i == |es| {
      assert es[..i] == es;
    } else {
      RunPrefix(c, es[..|es| - 1], i);
      assert es[..|es| - 1][..i] == es[..i];
    }
  }

  /** A run goes on from where its first part ended. */
  lemma {:induction false} RunAppend(c: Cache, a: seq<Event>, b: seq<Event>)
    requires Valid(c) && IsRun(c, a + b)
    ensures IsRun(c, a) && IsRun(Run(c, a), b) && Run(Run(c, a), b) == Run(c, a + b)
    decreases |b|
  {
    if b == [] {
      assert a + b == a;
    } else {
      var n := |b| - 1;
      assert (a + b)[..|a + b| - 1] == a + b[..n];
      assert (a + b)[|a + b| - 1] == b[n];
      RunAppend(c, a, b[..n]);
    }
  }

  /** The id of the latest F0 of a run, read off the requests alone. */
  function LatestNonceId(es: seq<Event>): byte {
    if es == [] then 0
    else if es[|es| - 1].WriteNonce? then NonceIdOf(es[|es| - 1].data)
    else LatestNonceId(es[..|es| - 1])
  }

  /** The data of every F0 of a run, in order. */
  function Nonces(es: seq<Event>): seq<Bytes> {
    if es == [] then []
    else Nonces(es[..|es| - 1]) + if es[|es| - 1].WriteNonce? then [es[|es| - 1].data] else []
  }

  lemma NoncesNext(es: seq<Event>, e: Event)
    ensures Nonces(es + [e]) == Nonces(es) + if e.WriteNonce? then [e.data] else []
  {
    assert (es + [e])[..|es|] == es;
  }

  /** The signatures published in a run, in order: final F2 answer and pages. */
  function Publications(es: seq<Event>): seq<(Bytes, seq<Bytes>)> {
    if es == [] then []
    else Publications(es[..|es| - 1])
         + (if es[|es| - 1].Publish? then [(es[|es| - 1].state, es[|es| - 1].pages)] else [])
  }

  /** `es` happened since the start, left `c`, and published `pubs`. */
  predicate Explains(es: seq<Event>, c: Cache, pubs: seq<(Bytes, seq<Bytes>)>)
  {
    IsRun(Initial(), es) && Run(Initial(), es) == c && Publications(es) == pubs
  }

  lemma ExplainsNext(es: seq<Event>, c: Cache, pubs: seq<(Bytes, seq<Bytes>)>, e: Event)
    requires Explains(es, c, pubs) && Valid(c) && Enabled(c, e)
    ensures Explains(es + [e], After(c, e), if e.Publish? then pubs + [(e.state, e.pages)] else pubs)
  {
    RunExtend(Initial(), es, e);
    assert (es + [e])[..|es|] == es;
  }

  /** What `ready` promises: page `i` is numbered `i`, F2 says ready, all carry `id`. */
  predicate Carries(c: Cache, id: byte)
    requires Valid(c)
  {
    && c.readyState[1] == id
    && c.readyState[2] == STATE_READY
    && CompletePages(c.signature)
    && forall i :: 0 <= i < SIGNATURE_PAGES ==> c.signature[i][1] == id
  }

  /** The id the console's latest F0 carries: its byte 1, or 0 if it has none or there was no F0. */
  lemma {:induction false} IdIsByteOne(es: seq<Event>)
    ensures Nonces(es) == [] ==> LatestNonceId(es) == 0
    ensures Nonces(es) != [] ==>
              var data := Nonces(es)[|Nonces(es)| - 1];
              LatestNonceId(es) == if |data| > 1 then data[1] else 0
  {
    if es == [] {
    } else {
      IdIsByteOne(es[..|es| - 1]);
    }
  }

  /** In every reachable state, whatever the interleaving: the cache's id is byte 1 of the
      console's latest F0, and a ready cache carries it everywhere. */
  lemma {:induction false} ReadyCarriesLatestId(es: seq<Event>)
    requires IsRun(Initial(), es)
    ensures Run(Initial(), es).nonceId == LatestNonceId(es)
    ensures Nonces(es) != [] && |Nonces(es)[|Nonces(es)| - 1]| > 1 ==>
              Run(Initial(), es).nonceId == Nonces(es)[|Nonces(es)| - 1][1]
    ensures Run(Initial(), es).ready ==> Carries(Run(Initial(), es), LatestNonceId(es))
  {
    IdIsByteOne(es);
    if es == [] {
    } else {
      ReadyCarriesLatestId(es[..|es| - 1]);
    }
  }

  /** So every F2 the console reads, and every F1 page, has in byte 1 what its latest F0 had. */
  lemma AnswersCarryLatestId(es: seq<Event>, i: nat)
    requires IsRun(Initial(), es) && i < |es|
    requires Nonces(es[..i]) != [] && |Nonces(es[..i])[|Nonces(es[..i])| - 1]| > 1
    ensures var data := Nonces(es[..i])[|Nonces(es[..i])| - 1];
            && (es[i].ReadState? ==> |es[i].answer| == 16 && es[i].answer[1] == data[1])
            && (es[i].ReadSignature? && es[i].page.Some? ==>
                  |es[i].page.value| == 64 && es[i].page.value[1] == data[1])
  {
    RunPrefix(Initial(), es, i + 1);
    assert es[..i + 1][..i] == es[..i];
    ReadyCarriesLatestId(es[..i]);
    IdIsByteOne(es[..i]);
  }

  /** Before any F0 the id is 0, and so it is after one too short to carry an id. */
  lemma AnswersWithoutId(es: seq<Event>, i: nat)
    requires IsRun(Initial(), es) && i < |es|
    requires Nonces(es[..i]) == [] || |Nonces(es[..i])[|Nonces(es[..i])| - 1]| <= 1
    ensures es[i].ReadState? ==> |es[i].answer| == 16 && es[i].answer[1] == 0
    ensures es[i].ReadSignature? && es[i].page.Some? ==> |es[i].page.value| == 64 && es[i].page.value[1] == 0
  {
    RunPrefix(Initial(), es, i + 1);
    assert es[..i + 1][..i] == es[..i];
    ReadyCarriesLatestId(es[..i]);
    IdIsByteOne(es[..i]);
  }

  // ---- What F2 and F3 say ----

  /** Event `k` publishes the signature that counts at `i`: no F3 read, F0 or publication since. */
  predicate PublishedAt(es: seq<Event>, k: nat, i: nat) {
    && k < i <= |es| && es[k].Publish?
    && forall j :: k < j < i ==> !es[j].ReadReset? && !es[j].WriteNonce? && !es[j].Publish?
  }

  function Published(es: seq<Event>, n: nat): (k: Option<nat>)
    requires n <= |es|
    ensures k.Some? ==> k.value < n && es[k.value].Publish?
  {
    if n == 0 then None
    else if es[n - 1].Publish? then Some(n - 1)
    else if es[n - 1].ReadReset? || es[n - 1].WriteNonce? then None
    else Published(es, n - 1)
  }

  lemma {:induction false} PublishedIs(es: seq<Event>, n: nat, k: nat)
    requires n <= |es|
    ensures PublishedAt(es, k, n) <==> Published(es, n) == Some(k)
    decreases n
  {
    if n == 0 {
    } else {
      PublishedIs(es, n - 1, k);
    }
  }

  /** A cache is ready exactly when a publication counts, and then holds its final F2 answer. */
  lemma {:induction false} ReadyIffPublished(es: seq<Event>, n: nat)
    requires n <= |es| && IsRun(Initial(), es[..n])
    ensures var c := Run(Initial(), es[..n]);
            && (c.ready <==> Published(es, n).Some?)
            && (c.ready ==>
                  var state := es[Published(es, n).value].state;
                  FinalState(state) && c.readyState == Rewrite(state, c.nonceId))
    decreases n
  {
    hide Run, IsRun;
    if n == 0 {
      assert es[..0] == [];
      NoRun();
    } else {
      assert es[..n] == es[..n - 1] + [es[n - 1]];
      RunLast(Initial(), es[..n - 1], es[n - 1]);
      ReadyIffPublished(es, n - 1);
    }
  }

  lemma NoRun()
    ensures IsRun(Initial(), []) && Run(Initial(), []) == Initial()
  {
  }

  /** In any run, F2 says "ready" if and only if a signature was published since the latest F3 read
      or F0, and then gives that publication's own F2 answer, byte 1 apart. Otherwise it is made
      up: "signing", and zeros behind it. */
  lemma StateAnswers(es: seq<Event>, i: nat)
    requires IsRun(Initial(), es) && i < |es| && es[i].ReadState?
    ensures |es[i].answer| == 16
    ensures es[i].answer[2] == 0x00 <==> exists k: nat :: PublishedAt(es, k, i)
    ensures forall k: nat :: PublishedAt(es, k, i) ==>
              && |es[k].state| == 16
              && forall b :: 0 <= b < 16 && b != 1 ==> es[i].answer[b] == es[k].state[b]
    ensures !(exists k: nat :: PublishedAt(es, k, i)) ==>
              && es[i].answer[0] == 0xf2 && es[i].answer[2] == 0x10
              && forall b :: 3 <= b < 16 ==> es[i].answer[b] == 0
  {
    hide PublishedAt, Published, IsRun, Run;
    RunPrefix(Initial(), es, i + 1);
    assert es[..i + 1] == es[..i] + [es[i]];
    RunLast(Initial(), es[..i], es[i]);
    ReadyIffPublished(es, i);
    forall k: nat
      ensures PublishedAt(es, k, i) <==> Published(es, i) == Some(k)
    {
      PublishedIs(es, i, k);
    }
    if Published(es, i).Some? {
      assert PublishedAt(es, Published(es, i).value, i);
    }
  }

  predicate AdoptedAt(es: seq<Event>, k: nat, i: nat) {
    k < i <= |es| && es[k].AdoptReset? && forall j :: k < j < i ==> !es[j].AdoptReset?
  }

  /** F3 gives the answer of the signer adopted last; before that, the one the source has. */
  lemma {:induction false} ResetAnswers(es: seq<Event>, n: nat)
    requires n <= |es| && IsRun(Initial(), es[..n])
    ensures forall k: nat :: AdoptedAt(es, k, n) ==> Run(Initial(), es[..n]).reset == es[k].reset
    ensures (forall k :: 0 <= k < n ==> !es[k].AdoptReset?) ==>
              Run(Initial(), es[..n]).reset == [0xf3, 0x00, 0x38, 0x38, 0x00, 0x00, 0x00, 0x00]
    ensures n < |es| && es[n].ReadReset? && IsRun(Initial(), es[..n + 1]) ==>
              es[n].answer == Run(Initial(), es[..n]).reset
    decreases n
  {
    hide Run, IsRun;
    if n == 0 {
      assert es[..0] == [];
      NoRun();
    } else {
      assert es[..n] == es[..n - 1] + [es[n - 1]];
      RunLast(Initial(), es[..n - 1], es[n - 1]);
      ResetAnswers(es, n - 1);
      forall k: nat | AdoptedAt(es, k, n)
        ensures Run(Initial(), es[..n]).reset == es[k].reset
      {
        assert k < n - 1 ==> AdoptedAt(es, k, n - 1);
      }
    }
    if n < |es| && IsRun(Initial(), es[..n + 1]) {
      assert es[..n + 1] == es[..n] + [es[n]];
      RunLast(Initial(), es[..n], es[n]);
    }
  }

  /** Events that put the page cursor back to page 0. */
  predicate ResetsCursor(e: Event) {
    e.ReadReset? || e.WriteNonce? || e.Publish?
  }

  predicate NoCursorReset(es: seq<Event>) {
    forall i :: 0 <= i < |es| ==> !ResetsCursor(es[i])
  }

  /** The F1 pages handed out in `es`, in order. */
  function PagesRead(es: seq<Event>): seq<Bytes> {
    if es == [] then []
    else PagesRead(es[..|es| - 1])
         + (if es[|es| - 1].ReadSignature? && es[|es| - 1].page.Some?
            then [es[|es| - 1].page.value] else [])
  }

  function SignatureReads(es: seq<Event>): nat {
    if es == [] then 0
    else SignatureReads(es[..|es| - 1]) + (if es[|es| - 1].ReadSignature? then 1 else 0)
  }

  /** Pages out so far, when F1 has been read `asked` times since the cursor was at page 0. */
  function PagesOut(c: Cache, asked: nat): (n: nat)
    requires Valid(c)
    ensures n <= SIGNATURE_PAGES
  {
    if c.ready then Min(asked, SIGNATURE_PAGES) else 0
  }

  /** From a cache just reset or just published, with no cursor reset in between: F1 hands
      out pages 0, 1, 2, ... of the cached signature when it is ready, each read one page
      until all are out, and nothing at all when it is not. */
  lemma {:induction false} PagesInOrder(c: Cache, es: seq<Event>)
    requires Valid(c) && c.nextPage == 0
    requires IsRun(c, es) && NoCursorReset(es)
    ensures PagesRead(es) == c.signature[..PagesOut(c, SignatureReads(es))]
    ensures Run(c, es).nextPage == PagesOut(c, SignatureReads(es))
    ensures Run(c, es).ready == c.ready && Run(c, es).signature == c.signature
    decreases |es|
  {
    if es == [] {
    } else {
      var k := |es| - 1;
      PagesInOrder(c, es[..k]);
      PageStep(c, Run(c, es[..k]), es[k], PagesRead(es[..k]), SignatureReads(es[..k]));
    }
  }

  lemma PageStep(c: Cache, d: Cache, e: Event, out: seq<Bytes>, asked: nat)
    requires Valid(c) && Valid(d) && Enabled(d, e) && !ResetsCursor(e)
    requires d.ready == c.ready && d.signature == c.signature
    requires d.nextPage == PagesOut(c, asked) && out == c.signature[..d.nextPage]
    ensures After(d, e).ready == c.ready && After(d, e).signature == c.signature
    ensures After(d, e).nextPage == PagesOut(c, asked + if e.ReadSignature? then 1 else 0)
    ensures out + (if e.ReadSignature? && e.page.Some? then [e.page.value] else [])
            == c.signature[..After(d, e).nextPage]
  {
  }

  /** The same over a whole history: after the cursor reset at `k` and up to the next one,
      the pages read are those of the publication at `k`, rewritten to the console's id of
      that moment, in order, at most 19; after an F3 or F0 there are none. */
  lemma PagesBetweenResets(es: seq<Event>, k: nat, j: nat)
    requires IsRun(Initial(), es)
    requires k < j <= |es| && ResetsCursor(es[k]) && NoCursorReset(es[k + 1..j])
    ensures es[k].Publish? ==>
              && CompletePages(es[k].pages)
              && PagesRead(es[k + 1..j])
                 == RewriteAll(es[k].pages, LatestNonceId(es[..k]))
                    [..Min(SignatureReads(es[k + 1..j]), SIGNATURE_PAGES)]
    ensures !es[k].Publish? ==> PagesRead(es[k + 1..j]) == []
  {
    hide IsRun, Run, PagesRead, SignatureReads, LatestNonceId;
    var before, between := es[..k], es[k + 1..j];
    RunPrefix(Initial(), es, j);
    assert es[..j] == (before + [es[k]]) + between;
    AfterReset(before, es[k], between);
  }

  lemma AfterReset(before: seq<Event>, e: Event, between: seq<Event>)
    requires IsRun(Initial(), (before + [e]) + between)
    requires ResetsCursor(e) && NoCursorReset(between)
    ensures e.Publish? ==>
              && CompletePages(e.pages)
              && PagesRead(between)
                 == RewriteAll(e.pages, LatestNonceId(before))[..Min(SignatureReads(between), SIGNATURE_PAGES)]
    ensures !e.Publish? ==> PagesRead(between) == []
  {
    hide IsRun, Run, PagesRead, SignatureReads, LatestNonceId;
    RunAppend(Initial(), before + [e], between);
    RunLast(Initial(), before, e);
    ReadyCarriesLatestId(before);
    PagesInOrder(Run(Initial(), before + [e]), between);
  }
}
