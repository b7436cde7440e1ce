/**
  What the signer side may ask of the signer while it serves one nonce (`handle`, `sign`,
  `fetch_signature` in src/auth.rs): the order of requests, pauses and replies, and what
  follows from it against any signer.
 */
module AuthSigning {
  import opened Common
  import opened AuthCache

  const NONCE_LEN: nat := 64
  const LAST_NONCE_PAGE: byte := 4
  const NONCE_PAGES: nat := 5
  const SIGN_ATTEMPTS: nat := 4

  /** Milliseconds. */
  const SIGNER_POLL: nat := 20
  const SIGNER_TIMEOUT: nat := 10_000
  const RESIGN_PAUSE: nat := 300
  const RESET_SETTLE: nat := 50
  const NONCE_PAGE_GAP: nat := 10
  const STALE_READY_GRACE: nat := 500

  /** One poll of F2: time since the fetch began when it was decided on and when its reply
      (or its failure) was in. */
  datatype Poll = Poll(asked: nat, reply: Option<Bytes>, answered: nat)

  /** One transfer to the signer, or a pause of at least that long. */
  datatype Io =
    | ResetIo
    | NonceIo(page: Bytes, acked: bool)
    | PollIo(poll: Poll)
    | PageIo(reply: Option<Bytes>)
    | PauseIo(ms: nat)

  datatype Fetch = Done | PageLost | NotReady

  /** One call of `fetch_signature`: its polls, its page reads, and how long it had run when
      it went on to the pages or gave up. */
  datatype FetchLog = FetchLog(polls: seq<Poll>, pages: seq<Option<Bytes>>, waited: nat, outcome: Fetch)

  /** One pass of the loop in `sign`. */
  datatype Attempt = Attempt(resent: bool, acks: seq<bool>, fetch: Option<FetchLog>)

  predicate Says(p: Poll, state: byte) {
    p.reply.Some? && |p.reply.value| == STATE_LEN && p.reply.value[2] == state
  }

  predicate SeenSigning(polls: seq<Poll>) {
    exists j :: 0 <= j < |polls| && Says(polls[j], STATE_SIGNING)
  }

  /** The last poll's "ready" is believed: it came after a "signing" or after the grace period. */
  predicate Believed(polls: seq<Poll>) {
    && polls != []
    && Says(polls[|polls| - 1], STATE_READY)
    && (SeenSigning(polls) || polls[|polls| - 1].answered >= STALE_READY_GRACE)
  }

  predicate RightPage(reply: Option<Bytes>, i: nat) {
    reply.Some? && |reply.value| == SIGNATURE_LEN && reply.value[2] == i
  }

  /** Polls are spaced by the pause and none is made once the time is up. */
  predicate Paced(polls: seq<Poll>) {
    && (forall i :: 0 <= i < |polls| ==> polls[i].asked < SIGNER_TIMEOUT && polls[i].asked <= polls[i].answered)
    && (forall i :: 0 < i < |polls| ==> polls[i - 1].answered + SIGNER_POLL <= polls[i].asked)
  }

  /** Polling stops at the first believed "ready", and only there or when the time is up;
      pages are read in order up to the first one lost or skipped. */
  predicate FetchOk(f: FetchLog) {
    && Paced(f.polls)
    && (forall k :: 0 <= k < |f.polls| ==> !Believed(f.polls[..k]))
    && (f.outcome == NotReady <==> !Believed(f.polls))
    && (f.outcome == NotReady ==> f.pages == [] && f.waited >= SIGNER_TIMEOUT)
    && (f.outcome != NotReady ==> 0 < |f.pages| <= SIGNATURE_PAGES)
    && (forall i :: 0 <= i < |f.pages| - 1 ==> RightPage(f.pages[i], i))
    && (f.pages != [] ==>
          (f.outcome == Done <==> |f.pages| == SIGNATURE_PAGES && RightPage(f.pages[|f.pages| - 1], |f.pages| - 1)))
    && (f.pages != [] && f.outcome == PageLost ==> !RightPage(f.pages[|f.pages| - 1], |f.pages| - 1))
  }

  /** All pages so far were taken. */
  predicate AllTaken(acks: seq<bool>) {
    forall i :: 0 <= i < |acks| ==> acks[i]
  }

  /** A fetch follows exactly when the nonce did not have to be resent or all five pages
      were taken; the page sending stops at the first refusal. */
  predicate AttemptOk(a: Attempt) {
    && (a.resent ==> 0 < |a.acks| <= NONCE_PAGES)
    && (!a.resent ==> a.acks == [])
    && (a.acks != [] ==> AllTaken(a.acks[..|a.acks| - 1]))
    && (a.fetch.Some? <==> !a.resent || (|a.acks| == NONCE_PAGES && AllTaken(a.acks)))
    && (a.resent && a.fetch.None? ==> !AllTaken(a.acks))
    && (a.fetch.Some? ==> FetchOk(a.fetch.value))
  }

  predicate Lost(a: Attempt) {
    a.fetch.Some? && a.fetch.value.outcome == PageLost
  }

  /** Attempts go on while pages are lost, at most `SIGN_ATTEMPTS` of them. */
  predicate Attempts(log: seq<Attempt>, resend: bool) {
    && |log| <= SIGN_ATTEMPTS
    && (forall i :: 0 <= i < |log| ==> AttemptOk(log[i]) && (log[i].resent <==> i > 0 || resend))
    && (forall i :: 0 <= i < |log| - 1 ==> Lost(log[i]))
  }

  predicate SignOk(log: seq<Attempt>, resend: bool) {
    && log != [] && Attempts(log, resend)
    && (Lost(log[|log| - 1]) ==> |log| == SIGN_ATTEMPTS)
  }

  /** `sign` resets the signer when it gives up on it. */
  predicate EndsWithReset(log: seq<Attempt>) {
    log != [] && log[|log| - 1].fetch.Some? && log[|log| - 1].fetch.value.outcome != Done
  }

  function PollsIo(polls: seq<Poll>): seq<Io> {
    if polls == [] then []
    else PollsIo(polls[..|polls| - 1]) + [PollIo(polls[|polls| - 1])]
         + (if Believed(polls) then [] else [PauseIo(SIGNER_POLL)])
  }

  function PagesIo(pages: seq<Option<Bytes>>): seq<Io> {
    seq(|pages|, i requires 0 <= i < |pages| => PageIo(pages[i]))
  }

  function FetchIo(f: FetchLog): seq<Io> {
    PollsIo(f.polls) + PagesIo(f.pages)
  }

  function ResendIo(nonce: seq<Bytes>, acks: seq<bool>): seq<Io>
    requires |acks| <= |nonce|
  {
    if acks == [] then []
    else ResendIo(nonce, acks[..|acks| - 1]) + [NonceIo(nonce[|acks| - 1], acks[|acks| - 1])]
         + (if acks[|acks| - 1] then [PauseIo(NONCE_PAGE_GAP)] else [])
  }

  lemma NonePassed(nonce: seq<Bytes>)
    ensures AllTaken([]) && ResendIo(nonce, []) == []
  {
  }

  lemma OneMorePage(nonce: seq<Bytes>, acks: seq<bool>, acked: bool)
    requires |acks| < |nonce| && AllTaken(acks)
    ensures ResendIo(nonce, acks + [acked])
            == ResendIo(nonce, acks) + [NonceIo(nonce[|acks|], acked)]
               + (if acked then [PauseIo(NONCE_PAGE_GAP)] else [])
    ensures AllTaken(acks + [acked]) <==> acked
    ensures (acks + [acked])[..|acks|] == acks
  {
  }

  /** A new attempt: F3, as a console begins its rounds, then the nonce pages. */
  function StartOverIo(nonce: seq<Bytes>, acks: seq<bool>): seq<Io>
    requires |acks| <= |nonce|
  {
    [PauseIo(RESIGN_PAUSE), ResetIo, PauseIo(RESET_SETTLE)] + ResendIo(nonce, acks)
  }

  function AttemptIo(a: Attempt, nonce: seq<Bytes>): seq<Io>
    requires |a.acks| <= |nonce|
  {
    (if a.resent then StartOverIo(nonce, a.acks) else [])
    + (if a.fetch.Some? then FetchIo(a.fetch.value) else [])
  }

  predicate Fits(log: seq<Attempt>, nonce: seq<Bytes>) {
    forall a :: a in log ==> |a.acks| <= |nonce|
  }

  function AttemptsIo(log: seq<Attempt>, nonce: seq<Bytes>): seq<Io>
    requires Fits(log, nonce)
  {
    if log == [] then [] else AttemptsIo(log[..|log| - 1], nonce) + AttemptIo(log[|log| - 1], nonce)
  }

  /** Everything `sign` does to the signer. */
  function SignIo(log: seq<Attempt>, nonce: seq<Bytes>): seq<Io>
    requires Fits(log, nonce)
  {
    AttemptsIo(log, nonce) + (if EndsWithReset(log) then [ResetIo] else [])
  }

  /** No believed "ready" yet. */
  predicate StillPolling(polls: seq<Poll>) {
    Paced(polls) && forall k :: 0 <= k <= |polls| ==> !Believed(polls[..k])
  }

  /** Passes of `sign` so far, each of which lost a page. */
  predicate AllLost(log: seq<Attempt>, resend: bool, nonce: seq<Bytes>) {
    Attempts(log, resend) && Fits(log, nonce) && forall i :: 0 <= i < |log| ==> Lost(log[i])
  }

  lemma NoAttempts(resend: bool, nonce: seq<Bytes>)
    ensures AllLost([], resend, nonce) && AttemptsIo([], nonce) == []
  {
  }

  lemma ShortAcks(a: Attempt)
    requires AttemptOk(a)
    ensures |a.acks| <= NONCE_PAGES
  {
  }

  /** The next pass of `sign`: the last, or one more that lost a page. */
  lemma OneMoreAttempt(log: seq<Attempt>, a: Attempt, resend: bool, nonce: seq<Bytes>)
    requires AllLost(log, resend, nonce) && |log| < SIGN_ATTEMPTS && |nonce| == NONCE_PAGES
    requires AttemptOk(a) && (a.resent <==> log != [] || resend)
    ensures Fits(log, nonce) && Fits(log + [a], nonce)
    ensures AttemptsIo(log + [a], nonce) == AttemptsIo(log, nonce) + AttemptIo(a, nonce)
    ensures Lost(a) ==> AllLost(log + [a], resend, nonce)
    ensures Lost(a) ==> (SignOk(log + [a], resend) <==> |log| + 1 == SIGN_ATTEMPTS)
    ensures !Lost(a) ==> SignOk(log + [a], resend)
    ensures EndsWithReset(log + [a]) <==> a.fetch.Some? && a.fetch.value.outcome != Done
  {
    hide AttemptIo, Lost;
    ShortAcks(a);
    hide AttemptOk;
    assert (log + [a])[..|log|] == log;
  }

  lemma NoPolls()
    ensures StillPolling([]) && !SeenSigning([]) && PollsIo([]) == []
  {
  }

  lemma PolledInVain(polls: seq<Poll>)
    requires StillPolling(polls)
    ensures Paced(polls) && !Believed(polls) && forall k :: 0 <= k < |polls| ==> !Believed(polls[..k])
  {
    assert polls[..|polls|] == polls;
  }

  lemma PollMore(polls: seq<Poll>, p: Poll)
    requires StillPolling(polls)
    requires p.asked < SIGNER_TIMEOUT && p.asked <= p.answered
    requires polls != [] ==> polls[|polls| - 1].answered + SIGNER_POLL <= p.asked
    ensures Paced(polls + [p])
    ensures forall k :: 0 <= k < |polls + [p]| ==> !Believed((polls + [p])[..k])
    ensures !Believed(polls + [p]) ==> StillPolling(polls + [p])
    ensures SeenSigning(polls + [p]) <==> SeenSigning(polls) || Says(p, STATE_SIGNING)
    ensures Believed(polls + [p]) <==>
              Says(p, STATE_READY) && (SeenSigning(polls + [p]) || p.answered >= 500)
    ensures PollsIo(polls + [p])
            == PollsIo(polls) + [PollIo(p)] + (if Believed(polls + [p]) then [] else [PauseIo(20)])
  {
    hide SeenSigning, Says, Believed, PollsIo;
    SeenMore(polls, p);
    BelievedMore(polls, p);
    PollsIoMore(polls, p);
    var all := polls + [p];
    assert all[..|polls|] == polls;
    forall k | 0 <= k < |all|
      ensures !Believed(all[..k])
    {
      assert all[..k] == polls[..k];
    }
    assert all[..|all|] == all;
  }

  lemma BelievedMore(polls: seq<Poll>, p: Poll)
    ensures Believed(polls + [p]) <==>
              Says(p, STATE_READY) && (SeenSigning(polls + [p]) || p.answered >= STALE_READY_GRACE)
  {
    hide SeenSigning, Says;
  }

  lemma PollsIoMore(polls: seq<Poll>, p: Poll)
    ensures PollsIo(polls + [p])
            == PollsIo(polls) + [PollIo(p)] + (if Believed(polls + [p]) then [] else [PauseIo(SIGNER_POLL)])
  {
    hide Believed;
    assert (polls + [p])[..|polls|] == polls;
  }

  lemma SeenMore(polls: seq<Poll>, p: Poll)
    ensures SeenSigning(polls + [p]) <==> SeenSigning(polls) || Says(p, STATE_SIGNING)
  {
    hide Says;
    var all := polls + [p];
    if SeenSigning(polls) {
      var j :| 0 <= j < |polls| && Says(polls[j], STATE_SIGNING);
      assert Says(all[j], STATE_SIGNING);
    }
    if Says(p, STATE_SIGNING) {
      assert Says(all[|polls|], STATE_SIGNING);
    }
    if SeenSigning(all) {
      var j :| 0 <= j < |all| && Says(all[j], STATE_SIGNING);
      assert j < |polls| ==> Says(polls[j], STATE_SIGNING);
    }
  }

  /** Pages `0` to `n - 1` have come in their places. */
  predicate PagesSoFar(pages: seq<Option<Bytes>>) {
    forall i :: 0 <= i < |pages| ==> RightPage(pages[i], i)
  }

  lemma GaveUp(polls: seq<Poll>, waited: nat)
    requires Paced(polls) && !Believed(polls) && forall k :: 0 <= k < |polls| ==> !Believed(polls[..k])
    requires waited >= SIGNER_TIMEOUT
    ensures FetchOk(FetchLog(polls, [], waited, NotReady))
    ensures FetchIo(FetchLog(polls, [], waited, NotReady)) == PollsIo(polls)
  {
    hide Believed, Paced;
  }

  lemma PagesFetched(polls: seq<Poll>, waited: nat, pages: seq<Option<Bytes>>, lost: bool)
    requires Paced(polls) && Believed(polls) && forall k :: 0 <= k < |polls| ==> !Believed(polls[..k])
    requires !lost ==> |pages| == SIGNATURE_PAGES && PagesSoFar(pages)
    requires lost ==>
               && 0 < |pages| <= SIGNATURE_PAGES && PagesSoFar(pages[..|pages| - 1])
               && !RightPage(pages[|pages| - 1], |pages| - 1)
    ensures FetchOk(FetchLog(polls, pages, waited, if lost then PageLost else Done))
  {
    hide Believed, Paced, RightPage;
    forall i | 0 <= i < |pages| - 1
      ensures RightPage(pages[i], i)
    {
      assert lost ==> pages[..|pages| - 1][i] == pages[i];
    }
  }

  // ---- Bounded work ----

  datatype Kind = Resets | NoncePages | Polls | Pages

  predicate IsKind(e: Io, k: Kind) {
    match k
    case Resets => e.ResetIo?
    case NoncePages => e.NonceIo?
    case Polls => e.PollIo?
    case Pages => e.PageIo?
  }

  function Count(io: seq<Io>, k: Kind): nat {
    if io == [] then 0 else Count(io[..|io| - 1], k) + (if IsKind(io[|io| - 1], k) then 1 else 0)
  }

  lemma {:induction false} CountAppend(a: seq<Io>, b: seq<Io>, k: Kind)
    ensures Count(a + b, k) == Count(a, k) + Count(b, k)
    decreases |b|
  {
    if b == [] {
      assert a + b == a;
    } else {
      assert (a + b)[..|a + b| - 1] == a + b[..|b| - 1];
      CountAppend(a, b[..|b| - 1], k);
    }
  }

  lemma {:induction false} CountPages(pages: seq<Option<Bytes>>, k: Kind)
    ensures Count(PagesIo(pages), k) == if k == Pages then |pages| else 0
    decreases |pages|
  {
    if pages == [] {
    } else {
      var n := |pages| - 1;
      assert PagesIo(pages)[..n] == PagesIo(pages[..n]);
      CountPages(pages[..n], k);
    }
  }

  lemma {:induction false} CountPolls(polls: seq<Poll>, k: Kind)
    ensures Count(PollsIo(polls), k) == if k == Polls then |polls| else 0
    decreases |polls|
  {
    hide Believed;
    if polls == [] {
    } else {
      var n := |polls| - 1;
      CountPolls(polls[..n], k);
      var last := [PollIo(polls[n])] + (if Believed(polls) then [] else [PauseIo(SIGNER_POLL)]);
      assert PollsIo(polls) == PollsIo(polls[..n]) + last;
      CountAppend(PollsIo(polls[..n]), last, k);
      CountAppend([PollIo(polls[n])], last[1..], k);
      assert last == [PollIo(polls[n])] + last[1..];
    }
  }

  lemma {:induction false} CountResend(nonce: seq<Bytes>, acks: seq<bool>, k: Kind)
    requires |acks| <= |nonce|
    ensures Count(ResendIo(nonce, acks), k) == if k == NoncePages then |acks| else 0
    decreases |acks|
  {
    if acks == [] {
    } else {
      var n := |acks| - 1;
      CountResend(nonce, acks[..n], k);
      var first := [NonceIo(nonce[n], acks[n])];
      var gap := if acks[n] then [PauseIo(NONCE_PAGE_GAP)] else [];
      assert ResendIo(nonce, acks) == ResendIo(nonce, acks[..n]) + (first + gap);
      CountAppend(ResendIo(nonce, acks[..n]), first + gap, k);
      CountAppend(first, gap, k);
    }
  }

  /** The k-th poll is asked no earlier than k pauses into the fetch. */
  lemma {:induction false} PollTime(polls: seq<Poll>, i: nat)
    requires Paced(polls) && i < |polls|
    ensures polls[i].asked >= SIGNER_POLL * i
  {
    if i == 0 {
    } else {
      PollTime(polls, i - 1);
    }
  }

  function Times(n: nat, m: nat): nat {
    if n == 0 then 0 else Times(n - 1, m) + m
  }

  lemma {:induction false} TimesAtMost(n: nat, bound: nat, m: nat)
    requires n <= bound
    ensures Times(n, m) <= Times(bound, m)
    decreases bound - n
  {
    if n == bound {
    } else {
      TimesAtMost(n + 1, bound, m);
    }
  }

  function Most(k: Kind): nat {
    match k
    case Resets => 1
    case NoncePages => NONCE_PAGES
    case Polls => SIGNER_TIMEOUT / SIGNER_POLL
    case Pages => SIGNATURE_PAGES
  }

  lemma CountStartOver(nonce: seq<Bytes>, acks: seq<bool>, k: Kind)
    requires |acks| <= |nonce|
    ensures Count(StartOverIo(nonce, acks), k)
            == if k == Resets then 1 else if k == NoncePages then |acks| else 0
  {
    var a, b, c := [PauseIo(RESIGN_PAUSE)], [ResetIo], [PauseIo(RESET_SETTLE)];
    assert StartOverIo(nonce, acks) == a + (b + (c + ResendIo(nonce, acks)));
    CountAppend(a, b + (c + ResendIo(nonce, acks)), k);
    CountAppend(b, c + ResendIo(nonce, acks), k);
    CountAppend(c, ResendIo(nonce, acks), k);
    CountResend(nonce, acks, k);
  }

  lemma CountFetch(f: FetchLog, k: Kind)
    requires FetchOk(f)
    ensures Count(FetchIo(f), k) == if k == Polls then |f.polls| else if k == Pages then |f.pages| else 0
    ensures |f.polls| <= SIGNER_TIMEOUT / SIGNER_POLL && |f.pages| <= SIGNATURE_PAGES
  {
    CountAppend(PollsIo(f.polls), PagesIo(f.pages), k);
    CountPolls(f.polls, k);
    CountPages(f.pages, k);
    if f.polls != [] {
      PollTime(f.polls, |f.polls| - 1);
    }
  }

  /** One attempt: at most 1 reset, 5 nonce pages, 500 polls and 19 page reads. */
  lemma AttemptWork(a: Attempt, nonce: seq<Bytes>, k: Kind)
    requires AttemptOk(a) && |nonce| == NONCE_PAGES
    ensures Count(AttemptIo(a, nonce), k) <= Most(k)
  {
    var start := if a.resent then StartOverIo(nonce, a.acks) else [];
    var fetch := if a.fetch.Some? then FetchIo(a.fetch.value) else [];
    CountAppend(start, fetch, k);
    if a.resent {
      CountStartOver(nonce, a.acks, k);
    }
    if a.fetch.Some? {
      CountFetch(a.fetch.value, k);
    }
  }

  lemma {:induction false} AttemptsWork(log: seq<Attempt>, nonce: seq<Bytes>, k: Kind, most: nat)
    requires Fits(log, nonce)
    requires forall a :: a in log ==> Count(AttemptIo(a, nonce), k) <= most
    ensures Count(AttemptsIo(log, nonce), k) <= Times(|log|, most)
    decreases |log|
  {
    if log == [] {
    } else {
      var n := |log| - 1;
      AttemptsWork(log[..n], nonce, k, most);
      CountAppend(AttemptsIo(log[..n], nonce), AttemptIo(log[n], nonce), k);
      assert log[n] in log;
    }
  }

  /** Against any signer: at most 5 resets, 20 nonce pages, 2000 polls (500 in each of at most
      4 fetches) and 76 page reads. */
  lemma BoundedWork(log: seq<Attempt>, resend: bool, nonce: seq<Bytes>)
    requires SignOk(log, resend) && |nonce| == NONCE_PAGES
    ensures Fits(log, nonce)
    ensures Count(SignIo(log, nonce), Resets) <= 5
    ensures Count(SignIo(log, nonce), NoncePages) <= 20
    ensures Count(SignIo(log, nonce), Polls) <= 2000
    ensures Count(SignIo(log, nonce), Pages) <= 76
    ensures forall i :: 0 <= i < |log| && log[i].fetch.Some? ==> |log[i].fetch.value.polls| <= 500
  {
    SignWork(log, resend, nonce, Resets);
    SignWork(log, resend, nonce, NoncePages);
    SignWork(log, resend, nonce, Polls);
    SignWork(log, resend, nonce, Pages);
    forall i | 0 <= i < |log| && log[i].fetch.Some?
      ensures |log[i].fetch.value.polls| <= 500
    {
      CountFetch(log[i].fetch.value, Polls);
    }
  }

  lemma SignWork(log: seq<Attempt>, resend: bool, nonce: seq<Bytes>, k: Kind)
    requires SignOk(log, resend) && |nonce| == NONCE_PAGES
    ensures Fits(log, nonce)
    ensures Count(SignIo(log, nonce), k) <= Times(SIGN_ATTEMPTS, Most(k)) + if k == Resets then 1 else 0
  {
    forall a | a in log
      ensures Count(AttemptIo(a, nonce), k) <= Most(k)
    {
      AttemptWork(a, nonce, k);
    }
    AttemptsWork(log, nonce, k, Most(k));
    TimesAtMost(|log|, SIGN_ATTEMPTS, Most(k));
    var tail := if EndsWithReset(log) then [ResetIo] else [];
    CountAppend(AttemptsIo(log, nonce), tail, k);
    assert tail != [] ==> tail[..0] == [];
  }

  /** The fetch of a pass that resends comes right after a reset and five pages all taken. */
  lemma FetchAfterResend(log: seq<Attempt>, resend: bool, nonce: seq<Bytes>, i: nat)
    requires SignOk(log, resend) && |nonce| == NONCE_PAGES
    requires i < |log| && log[i].fetch.Some? && log[i].resent
    ensures Fits(log, nonce)
    ensures AttemptIo(log[i], nonce) == FiveAcked(nonce) + FetchIo(log[i].fetch.value)
  {
    hide ResendIo, FetchIo, FetchOk;
    assert log[i].acks == [true, true, true, true, true];
    FiveResent(nonce);
    assert StartOverIo(nonce, log[i].acks) == FiveAcked(nonce);
  }

  lemma FiveResent(nonce: seq<Bytes>)
    requires |nonce| == NONCE_PAGES
    ensures [PauseIo(300), ResetIo, PauseIo(50)] + ResendIo(nonce, [true, true, true, true, true]) == FiveAcked(nonce)
  {
    hide ResendIo, AllTaken, Passed;
    NonePassed(nonce);
    AcksNext(nonce, [], [true]);
    AcksNext(nonce, [true], [true, true]);
    AcksNext(nonce, [true, true], [true, true, true]);
    AcksNext(nonce, [true, true, true], [true, true, true, true]);
    AcksNext(nonce, [true, true, true, true], [true, true, true, true, true]);
  }

  lemma AcksNext(nonce: seq<Bytes>, acks: seq<bool>, next: seq<bool>)
    requires |acks| < |nonce| && next == acks + [true]
    ensures ResendIo(nonce, next) == ResendIo(nonce, acks) + Passed(nonce[|acks|])
  {
    assert next[..|acks|] == acks;
  }

  function Passed(page: Bytes): seq<Io> {
    [NonceIo(page, true), PauseIo(10)]
  }

  /** A reset between pauses, then five pages taken, 10 ms apart. */
  function FiveAcked(nonce: seq<Bytes>): seq<Io>
    requires |nonce| == NONCE_PAGES
  {
    [PauseIo(300), ResetIo, PauseIo(50)]
    + ([] + Passed(nonce[0]) + Passed(nonce[1]) + Passed(nonce[2]) + Passed(nonce[3]) + Passed(nonce[4]))
  }

  /** `sign` ends with a reset of the signer if its last fetch was not done, and only then; a pass
      that could not send the nonce just ends. */
  lemma SignEnds(log: seq<Attempt>, resend: bool, nonce: seq<Bytes>)
    requires SignOk(log, resend) && |nonce| == NONCE_PAGES
    ensures Fits(log, nonce)
    ensures var last := log[|log| - 1];
            if last.fetch.Some? && last.fetch.value.outcome in {NotReady, PageLost}
            then SignIo(log, nonce) == AttemptsIo(log, nonce) + [ResetIo]
            else SignIo(log, nonce) == AttemptsIo(log, nonce)
    ensures |log| > 1 ==> forall i :: 0 <= i < |log| - 1 ==> log[i].fetch.Some? && log[i].fetch.value.outcome == PageLost
    ensures log[|log| - 1].fetch.Some? && log[|log| - 1].fetch.value.outcome == PageLost ==> |log| == 4
  {
  }

  // ---- Refused nonce pages ----

  predicate IsPage(data: Bytes) {
    |data| == NONCE_LEN && data[2] < NONCE_PAGES
  }

  predicate HasNumber(data: Bytes, n: byte) {
    |data| > 2 && data[2] == n
  }

  /** `NONCE_REFUSED` after a page: cleared by the first and the last page of a round. */
  function RefusedAfter(refused: bool, data: Bytes, acked: bool): bool {
    if HasNumber(data, LAST_NONCE_PAGE) || HasNumber(data, 0) then false else refused || !acked
  }

  /** A page after page 0 was refused. */
  predicate LaterRefused(acks: seq<bool>) {
    exists j :: 1 <= j < |acks| && !acks[j]
  }

  lemma OneMoreAck(acks: seq<bool>, acked: bool)
    ensures acks != [] ==> (LaterRefused(acks + [acked]) <==> LaterRefused(acks) || !acked)
    ensures acks == [] ==> !LaterRefused(acks + [acked])
  {
    var all := acks + [acked];
    if LaterRefused(acks) {
      var j :| 1 <= j < |acks| && !acks[j];
      assert !all[j];
    }
    if acks != [] && !acked {
      assert !all[|acks|];
    }
    if LaterRefused(all) {
      var j :| 1 <= j < |all| && !all[j];
      assert j < |acks| ==> !acks[j];
    }
  }

  /** One command as `handle` acted on it. For a page: whether the signer acknowledged it and, if
      it was the last one, the nonce pages kept and the passes of `sign`. */
  datatype Turn = ResetTurn | PageTurn(page: Bytes, acked: bool, nonce: seq<Bytes>, log: seq<Attempt>)

  function FlagAfter(refused: bool, turns: seq<Turn>): bool {
    if turns == [] then refused
    else
      var before, last := FlagAfter(refused, turns[..|turns| - 1]), turns[|turns| - 1];
      if last.PageTurn? then RefusedAfter(before, last.page, last.acked) else before
  }

  predicate IsLast(t: Turn) {
    t.PageTurn? && HasNumber(t.page, LAST_NONCE_PAGE)
  }

  /** The last page of a round, and no other, starts `sign`, told to resend if the flag is set or
      the page itself was refused. */
  predicate TurnOk(t: Turn, refused: bool) {
    t.PageTurn? ==>
      && |t.nonce| == NONCE_PAGES && Fits(t.log, t.nonce)
      && (if IsLast(t) then SignOk(t.log, refused || !t.acked) else t.log == [])
  }

  predicate TurnsOk(turns: seq<Turn>, refused: bool) {
    forall i :: 0 <= i < |turns| ==> TurnOk(turns[i], FlagAfter(refused, turns[..i]))
  }

  function TurnIo(t: Turn): seq<Io>
    requires t.PageTurn? ==> Fits(t.log, t.nonce)
  {
    if t.ResetTurn? then [ResetIo] else [NonceIo(t.page, t.acked)] + SignIo(t.log, t.nonce)
  }

  predicate AllFit(turns: seq<Turn>) {
    forall i :: 0 <= i < |turns| && turns[i].PageTurn? ==> Fits(turns[i].log, turns[i].nonce)
  }

  /** Everything done to the signer in these turns. */
  function TurnsIo(turns: seq<Turn>): seq<Io>
    requires AllFit(turns)
  {
    if turns == [] then [] else TurnsIo(turns[..|turns| - 1]) + TurnIo(turns[|turns| - 1])
  }

  lemma NoTurns(refused: bool)
    ensures TurnsOk([], refused) && FlagAfter(refused, []) == refused && AllFit([]) && TurnsIo([]) == []
  {
  }

  lemma OneMoreTurn(turns: seq<Turn>, t: Turn, refused: bool)
    requires TurnsOk(turns, refused) && TurnOk(t, FlagAfter(refused, turns))
    ensures TurnsOk(turns + [t], refused) && AllFit(turns) && AllFit(turns + [t])
    ensures TurnsIo(turns + [t]) == TurnsIo(turns) + TurnIo(t)
    ensures FlagAfter(refused, turns + [t])
            == if t.PageTurn? then RefusedAfter(FlagAfter(refused, turns), t.page, t.acked) else FlagAfter(refused, turns)
  {
    hide RefusedAfter, SignOk, Fits;
    var all := turns + [t];
    assert all[..|turns|] == turns;
    forall i | 0 <= i < |all|
      ensures TurnOk(all[i], FlagAfter(refused, all[..i]))
    {
      if i < |turns| {
        assert all[..i] == turns[..i];
      }
    }
  }

  /** A page that clears the flag once it is dealt with. */
  predicate Clears(t: Turn) {
    t.PageTurn? && (HasNumber(t.page, 0) || HasNumber(t.page, LAST_NONCE_PAGE))
  }

  predicate NoneClears(turns: seq<Turn>, j: nat, n: nat)
    requires j <= n <= |turns|
  {
    forall i :: j <= i < n ==> !Clears(turns[i])
  }

  /** A page was refused in the turns before `n` that no first or last page has cleared since. */
  predicate RefusedSince(refused: bool, turns: seq<Turn>, n: nat)
    requires n <= |turns|
  {
    || (refused && NoneClears(turns, 0, n))
    || exists j :: 0 <= j < n && turns[j].PageTurn? && !turns[j].acked && NoneClears(turns, j, n)
  }

  /** What the flag means, for any commands in any order. */
  lemma {:induction false} FlagMeaning(refused: bool, turns: seq<Turn>, n: nat)
    requires n <= |turns|
    ensures FlagAfter(refused, turns[..n]) <==> RefusedSince(refused, turns, n)
    decreases n
  {
    if n == 0 {
      assert turns[..0] == [];
    } else {
      FlagMeaning(refused, turns, n - 1);
      assert turns[..n][..n - 1] == turns[..n - 1];
      if RefusedSince(refused, turns, n - 1) && !Clears(turns[n - 1]) {
        if !(refused && NoneClears(turns, 0, n - 1)) {
          var j :| 0 <= j < n - 1 && turns[j].PageTurn? && !turns[j].acked && NoneClears(turns, j, n - 1);
          assert NoneClears(turns, j, n);
        }
      }
      if turns[n - 1].PageTurn? && !turns[n - 1].acked && !Clears(turns[n - 1]) {
        assert NoneClears(turns, n - 1, n);
      }
      if RefusedSince(refused, turns, n) && !(refused && NoneClears(turns, 0, n)) {
        var j :| 0 <= j < n && turns[j].PageTurn? && !turns[j].acked && NoneClears(turns, j, n);
        assert !Clears(turns[n - 1]);
        assert j < n - 1 ==> NoneClears(turns, j, n - 1);
      }
    }
  }

  predicate AllAcked(io: seq<Io>) {
    forall i :: 0 <= i < |io| && io[i].NonceIo? ==> io[i].acked
  }

  lemma AllAckedNext(io: seq<Io>, e: Io)
    ensures AllAcked(io + [e]) <==> AllAcked(io) && (e.NonceIo? ==> e.acked)
  {
    var all := io + [e];
    assert all[|io|] == e;
    if AllAcked(all) {
      forall i | 0 <= i < |io| && io[i].NonceIo?
        ensures io[i].acked
      {
        assert all[i] == io[i];
      }
    }
  }

  predicate PagesAcked(turns: seq<Turn>, j: nat, n: nat)
    requires j <= n <= |turns|
  {
    forall i :: j <= i < n && turns[i].PageTurn? ==> turns[i].acked
  }

  lemma PlainTurn(turns: seq<Turn>, refused: bool, k: nat)
    requires TurnsOk(turns, refused) && k < |turns| && !Clears(turns[k])
    ensures turns[k].PageTurn? ==> Fits(turns[k].log, turns[k].nonce)
    ensures TurnIo(turns[k]) == [if turns[k].ResetTurn? then ResetIo else NonceIo(turns[k].page, turns[k].acked)]
  {
    assert TurnOk(turns[k], FlagAfter(refused, turns[..k]));
  }

  lemma TurnsIoNext(turns: seq<Turn>, t: Turn)
    requires AllFit(turns) && (t.PageTurn? ==> Fits(t.log, t.nonce))
    ensures AllFit(turns + [t]) && TurnsIo(turns + [t]) == TurnsIo(turns) + TurnIo(t)
  {
    assert (turns + [t])[..|turns|] == turns;
  }

  lemma NothingDone(turns: seq<Turn>, j: nat)
    requires j <= |turns|
    ensures turns[j..j] == [] && AllFit([]) && TurnsIo([]) == [] && AllAcked([]) && PagesAcked(turns, j, j)
  {
  }

  lemma SpanNext(turns: seq<Turn>, j: nat, n: nat)
    requires j < n <= |turns| && NoneClears(turns, j, n)
    ensures NoneClears(turns, j, n - 1) && !Clears(turns[n - 1])
    ensures turns[j..n] == turns[j..n - 1] + [turns[n - 1]]
    ensures PagesAcked(turns, j, n)
            <==> PagesAcked(turns, j, n - 1) && (turns[n - 1].PageTurn? ==> turns[n - 1].acked)
  {
  }

  /** Between the first and the last page of a round only pages, and resets, go to the signer. */
  lemma {:induction false} SpanIo(turns: seq<Turn>, refused: bool, j: nat, n: nat)
    requires TurnsOk(turns, refused) && j <= n <= |turns| && NoneClears(turns, j, n)
    ensures AllFit(turns[j..n])
    ensures AllAcked(TurnsIo(turns[j..n])) <==> PagesAcked(turns, j, n)
    decreases n
  {
    hide *;
    if j == n {
      NothingDone(turns, j);
    } else {
      var before := turns[j..n - 1];
      SpanNext(turns, j, n);
      SpanIo(turns, refused, j, n - 1);
      PlainTurn(turns, refused, n - 1);
      TurnsIoNext(before, turns[n - 1]);
      AllAckedNext(TurnsIo(before), TurnIo(turns[n - 1])[0]);
    }
  }

  /** Nothing before turn `j` counts any more. */
  predicate StartsAfresh(refused: bool, turns: seq<Turn>, j: nat)
    requires j <= |turns|
  {
    if j == 0 then !refused else Clears(turns[j - 1])
  }

  lemma RefusedMeansNotAcked(refused: bool, turns: seq<Turn>, j: nat, n: nat)
    requires j <= n <= |turns| && NoneClears(turns, j, n) && StartsAfresh(refused, turns, j)
    ensures RefusedSince(refused, turns, n) <==> !PagesAcked(turns, j, n)
  {
    if RefusedSince(refused, turns, n) {
      var k :| 0 <= k < n && turns[k].PageTurn? && !turns[k].acked && NoneClears(turns, k, n);
      assert k >= j;
    }
    if !PagesAcked(turns, j, n) {
      var k :| j <= k < n && turns[k].PageTurn? && !turns[k].acked;
      assert NoneClears(turns, k, n);
    }
  }

  lemma SignsAfterLast(turns: seq<Turn>, refused: bool, n: nat)
    requires TurnsOk(turns, refused) && n < |turns| && IsLast(turns[n])
    ensures |turns[n].nonce| == NONCE_PAGES && SignOk(turns[n].log, FlagAfter(refused, turns[..n]) || !turns[n].acked)
    ensures turns[n].log != [] && (turns[n].log[0].resent <==> FlagAfter(refused, turns[..n]) || !turns[n].acked)
  {
    assert TurnOk(turns[n], FlagAfter(refused, turns[..n]));
  }

  /** When the first fetch of a round goes ahead without sending the nonce again: if and only if,
      in everything done to the signer since the last page that cleared the flag, every nonce page
      was acknowledged. This is for any commands in any order. */
  lemma DirectIffAllAcked(turns: seq<Turn>, refused: bool, j: nat, n: nat)
    requires TurnsOk(turns, refused) && j <= n < |turns| && IsLast(turns[n])
    requires NoneClears(turns, j, n) && StartsAfresh(refused, turns, j)
    ensures AllFit(turns[j..n]) && turns[n].log != []
    ensures !turns[n].log[0].resent
            <==> AllAcked(TurnsIo(turns[j..n]) + [NonceIo(turns[n].page, turns[n].acked)])
  {
    hide TurnsIo, TurnsOk, AllAcked, FlagAfter, RefusedSince, PagesAcked, NoneClears, AllFit, StartsAfresh;
    SpanIo(turns, refused, j, n);
    FlagMeaning(refused, turns, n);
    SignsAfterLast(turns, refused, n);
    RefusedMeansNotAcked(refused, turns, j, n);
    AllAckedNext(TurnsIo(turns[j..n]), NonceIo(turns[n].page, turns[n].acked));
  }

  /** Whenever a fetch starts, the signer has acknowledged the whole nonce: on a pass that resends,
      all five pages since the reset; on a pass that does not, every page since the last one that
      cleared the flag (page 0 itself aside). */
  lemma FetchOnlyAfterAcks(turns: seq<Turn>, refused: bool, j: nat, n: nat, i: nat)
    requires TurnsOk(turns, refused) && j <= n < |turns| && IsLast(turns[n])
    requires NoneClears(turns, j, n) && StartsAfresh(refused, turns, j)
    requires i < |turns[n].log| && turns[n].log[i].fetch.Some?
    ensures |turns[n].nonce| == NONCE_PAGES && |turns[n].log[i].acks| <= NONCE_PAGES && AllFit(turns[j..n])
    ensures turns[n].log[i].resent ==>
              AttemptIo(turns[n].log[i], turns[n].nonce)
              == FiveAcked(turns[n].nonce) + FetchIo(turns[n].log[i].fetch.value)
    ensures !turns[n].log[i].resent ==>
              && i == 0 && AttemptIo(turns[n].log[i], turns[n].nonce) == FetchIo(turns[n].log[i].fetch.value)
              && AllAcked(TurnsIo(turns[j..n]) + [NonceIo(turns[n].page, turns[n].acked)])
  {
    hide AllAcked, TurnsIo, AllFit, ResendIo, FetchIo, TurnsOk, NoneClears, FlagAfter, FetchOk;
    DirectIffAllAcked(turns, refused, j, n);
    SignsAfterLast(turns, refused, n);
    ShortAcks(turns[n].log[i]);
    if turns[n].log[i].resent {
      FetchAfterResend(turns[n].log, FlagAfter(refused, turns[..n]) || !turns[n].acked, turns[n].nonce, i);
    }
  }

  // ---- One round ----

  predicate IsPageTurn(t: Turn, k: nat) {
    t.PageTurn? && IsPage(t.page) && t.page[2] == k
  }

  /** Turns `n - 4` to `n` are the five pages of a round, in order. */
  predicate IsRound(turns: seq<Turn>, n: nat) {
    && 4 <= n < |turns|
    && IsPageTurn(turns[n - 4], 0) && IsPageTurn(turns[n - 3], 1) && IsPageTurn(turns[n - 2], 2)
    && IsPageTurn(turns[n - 1], 3) && IsPageTurn(turns[n], 4)
  }

  function RoundAcks(turns: seq<Turn>, n: nat): (acks: seq<bool>)
    requires IsRound(turns, n)
    ensures |acks| == NONCE_PAGES
  {
    [turns[n - 4].acked, turns[n - 3].acked, turns[n - 2].acked, turns[n - 1].acked, turns[n].acked]
  }

  function RoundPages(turns: seq<Turn>, n: nat): (pages: seq<Bytes>)
    requires IsRound(turns, n)
    ensures |pages| == NONCE_PAGES
  {
    [turns[n - 4].page, turns[n - 3].page, turns[n - 2].page, turns[n - 1].page, turns[n].page]
  }

  lemma RoundTurns(turns: seq<Turn>, n: nat)
    requires IsRound(turns, n)
    ensures 4 <= n < |turns| && IsLast(turns[n]) && Clears(turns[n - 4]) && NoneClears(turns, n - 3, n)
    ensures PagesAcked(turns, n - 3, n) && turns[n].acked <==> !LaterRefused(RoundAcks(turns, n))
  {
    var acks := RoundAcks(turns, n);
    if LaterRefused(acks) {
      var j :| 1 <= j < |acks| && !acks[j];
      assert j < 4 ==> !turns[n - 4 + j].acked;
    }
    if !LaterRefused(acks) {
      assert acks[1] && acks[2] && acks[3] && acks[4];
    }
  }

  /** A round is resent before anything is fetched if and only if a page after page 0 was refused,
      whatever came before the round. */
  lemma ResentIffLaterRefused(turns: seq<Turn>, refused: bool, n: nat)
    requires TurnsOk(turns, refused) && IsRound(turns, n)
    ensures turns[n].log != [] && (turns[n].log[0].resent <==> LaterRefused(RoundAcks(turns, n)))
  {
    hide TurnsOk, FlagAfter, RefusedSince, PagesAcked, NoneClears, IsRound, LaterRefused, RoundAcks;
    RoundTurns(turns, n);
    FlagMeaning(refused, turns, n);
    SignsAfterLast(turns, refused, n);
    RefusedMeansNotAcked(refused, turns, n - 3, n);
  }

  /** src/auth.rs:254-255 and docs/ps5-auth.md promise that a round in which a page was
      refused is resent. The code keeps that promise exactly when page 0 was taken or a later
      page was refused too: a refusal of page 0 alone is forgotten (src/auth.rs:256-264). */
  lemma RefusedIsResentIff(turns: seq<Turn>, refused: bool, n: nat)
    requires TurnsOk(turns, refused) && IsRound(turns, n)
    ensures turns[n].log != []
    ensures var acks := RoundAcks(turns, n);
            ((exists k :: 0 <= k < NONCE_PAGES && !acks[k]) <==> turns[n].log[0].resent)
            <==> acks[0] || LaterRefused(acks)
  {
    hide TurnsOk, IsRound;
    ResentIffLaterRefused(turns, refused, n);
    var acks := RoundAcks(turns, n);
    if !acks[0] {
      assert exists k :: 0 <= k < NONCE_PAGES && !acks[k];
    }
  }

  function NumberedPage(k: byte): (r: Bytes)
    ensures |r| == NONCE_LEN == SIGNATURE_LEN && r[2] == k
  {
    Zeros(NONCE_LEN)[2 := k]
  }

  /** A fetch that goes well: F2 says ready after the grace period, and all pages come. */
  function GoodFetch(): FetchLog {
    FetchLog([Poll(0, Some(Zeros(STATE_LEN)), STALE_READY_GRACE)],
             seq(SIGNATURE_PAGES, i requires 0 <= i < SIGNATURE_PAGES => Some(NumberedPage(i))), STALE_READY_GRACE, Done)
  }

  lemma GoodFetchOk()
    ensures FetchOk(GoodFetch())
  {
    var polls := GoodFetch().polls;
    assert polls[..0] == [] && Says(polls[0], STATE_READY);
    assert forall i :: 0 <= i < SIGNATURE_PAGES ==> RightPage(GoodFetch().pages[i], i);
  }

  function ForgottenRound(nonce: seq<Bytes>): (turns: seq<Turn>)
    ensures |turns| == NONCE_PAGES
  {
    [PageTurn(NumberedPage(0), false, nonce, []), PageTurn(NumberedPage(1), true, nonce, []),
     PageTurn(NumberedPage(2), true, nonce, []), PageTurn(NumberedPage(3), true, nonce, []),
     PageTurn(NumberedPage(4), true, nonce, [Attempt(false, [], Some(GoodFetch()))])]
  }

  /** The failing input: page 0 is refused, the others are taken, and without a resend the round
      is signed and published. */
  lemma RefusedPageZeroIsForgotten(nonce: seq<Bytes>)
    requires |nonce| == NONCE_PAGES
    ensures var turns := ForgottenRound(nonce);
            && TurnsOk(turns, false) && IsRound(turns, 4)
            && !turns[0].acked && !turns[4].log[0].resent
            && turns[4].log[0].fetch.value.outcome == Done
  {
    hide FetchOk, SignOk, FlagAfter;
    var turns := ForgottenRound(nonce);
    GoodSign();
    assert forall i :: 0 <= i < NONCE_PAGES ==> FlagAfter(false, turns[..i]) == false by {
      NoFlag(turns, NONCE_PAGES - 1);
    }
  }

  lemma {:induction false} NoFlag(turns: seq<Turn>, n: nat)
    requires |turns| == NONCE_PAGES && n < NONCE_PAGES
    requires forall i :: 0 <= i < 4 ==>
               turns[i].PageTurn? && !RefusedAfter(false, turns[i].page, turns[i].acked)
    ensures forall i :: 0 <= i <= n ==> !FlagAfter(false, turns[..i])
  {
    if n == 0 {
      assert turns[..0] == [];
    } else {
      NoFlag(turns, n - 1);
      assert turns[..n][..n - 1] == turns[..n - 1];
    }
  }

  lemma GoodSign()
    ensures SignOk([Attempt(false, [], Some(GoodFetch()))], false)
  {
    GoodFetchOk();
  }

  // ---- What the signer holds after a round ----

  /** The signer's nonce pages after it took a page or not. */
  function TakePage(buffer: seq<Bytes>, data: Bytes, taken: bool): (r: seq<Bytes>)
    requires |buffer| == NONCE_PAGES
    ensures |r| == NONCE_PAGES
  {
    if taken && IsPage(data) then buffer[data[2] := data] else buffer
  }

  function Delivered(buffer: seq<Bytes>, pages: seq<Bytes>, took: seq<bool>): (r: seq<Bytes>)
    requires |buffer| == NONCE_PAGES && |pages| == |took|
    ensures |r| == NONCE_PAGES
  {
    if pages == [] then buffer
    else
      var n := |pages| - 1;
      TakePage(Delivered(buffer, pages[..n], took[..n]), pages[n], took[n])
  }

  /** What is signed without a resend is the console's nonce if and only if the signer took page
      0, or held the very same page from before. A page that was acknowledged was taken; one that
      was taken may have been reported refused. */
  lemma SignedWithoutResendIff(turns: seq<Turn>, refused: bool, n: nat, buffer: seq<Bytes>, took: seq<bool>)
    requires TurnsOk(turns, refused) && IsRound(turns, n) && turns[n].log != [] && !turns[n].log[0].resent
    requires |buffer| == |took| == NONCE_PAGES
    requires forall k :: 0 <= k < NONCE_PAGES && RoundAcks(turns, n)[k] ==> took[k]
    ensures Delivered(buffer, RoundPages(turns, n), took) == RoundPages(turns, n)
            <==> took[0] || buffer[0] == RoundPages(turns, n)[0]
  {
    hide TurnsOk, Delivered;
    ResentIffLaterRefused(turns, refused, n);
    var pages := RoundPages(turns, n);
    assert forall k :: 1 <= k < NONCE_PAGES ==> took[k];
    RoundDelivered(turns, n, buffer, took);
    var d := Delivered(buffer, pages, took);
    assert d[1..] == pages[1..];
    if d[0] == pages[0] {
      assert d == [d[0]] + d[1..] && pages == [pages[0]] + pages[1..];
    }
  }

  lemma RoundDelivered(turns: seq<Turn>, n: nat, buffer: seq<Bytes>, took: seq<bool>)
    requires IsRound(turns, n) && |buffer| == |took| == NONCE_PAGES
    ensures forall k :: 0 <= k < NONCE_PAGES ==>
              Delivered(buffer, RoundPages(turns, n), took)[k] == if took[k] then RoundPages(turns, n)[k] else buffer[k]
  {
    var pages := RoundPages(turns, n);
    assert forall m: nat :: m < NONCE_PAGES ==> IsPage(pages[m]) && pages[m][2] == m;
    DeliveredPages(buffer, pages, took, NONCE_PAGES);
    assert pages[..NONCE_PAGES] == pages && took[..NONCE_PAGES] == took;
  }

  lemma {:induction false} DeliveredPages(buffer: seq<Bytes>, pages: seq<Bytes>, took: seq<bool>, m: nat)
    requires |buffer| == |pages| == |took| == NONCE_PAGES && m <= NONCE_PAGES
    requires forall k: nat :: k < NONCE_PAGES ==> IsPage(pages[k]) && pages[k][2] == k
    ensures forall k :: 0 <= k < NONCE_PAGES ==>
              Delivered(buffer, pages[..m], took[..m])[k] == if k < m && took[k] then pages[k] else buffer[k]
    decreases m
  {
    if m == 0 {
      assert pages[..0] == [];
    } else {
      DeliveredPages(buffer, pages, took, m - 1);
      assert pages[..m][..m - 1] == pages[..m - 1] && took[..m][..m - 1] == took[..m - 1];
    }
  }
}
