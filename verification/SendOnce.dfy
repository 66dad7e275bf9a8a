/**
 * Send-only-once delivery, slack/client.go: any number of instances race on HSETNX in a shared Redis before
 * they push an event, write a command to Slack or register a bot, and redis.v3 retries after network errors.
 */
module SendOnce {
  import opened Bytes

  const MAX_RETRIES := 5

  /** What the winner of the race does. */
  datatype Action = PushEvent | WriteToSlack | RegisterBot

  /** One execution of sendEvent, of the "message" command or of registerOnBotmetrics in some instance. */
  datatype Call = Call(key: string, action: Action)

  datatype Phase = Idle | Claiming(attempt: nat) | Pushing(attempt: nat) | Done | Skipped | Crashed

  /** HSETNX of the mutex key, or RPUSH of the event, sent in one attempt of a call. */
  datatype Request = Claim(call: nat, attempt: nat) | Push(call: nat, attempt: nat)

  /**
   * pending are requests on their way, answers what the server replied. granted, entered and lost are history:
   * the claim that created a mutex key, the calls that entered the sending branch in order, and the requests
   * whose answer the caller no longer waits for. The queue names the call of each event.
   */
  datatype World = World(
    phase: seq<Phase>, pending: set<Request>, answers: map<Request, bool>, mutex: set<string>, queue: seq<nat>,
    effects: seq<nat>, granted: map<string, Request>, entered: seq<nat>, lost: set<Request>)

  function Start(calls: seq<Call>): World {
    World(seq(|calls|, _ => Idle), {}, map[], {}, [], [], map[], [], {})
  }

  datatype Step = Begin(call: nat) | Serve(req: Request) | Receive(call: nat)
    | Drop(req: Request) | GiveUp(call: nat) | Fail(call: nat) | Crash(call: nat)

  /** The steps of a run in which nothing goes wrong. */
  predicate Smooth(s: Step) {
    s.Begin? || s.Serve? || s.Receive?
  }

  function Waiting(w: World, c: nat): (r: Option<Request>)
    requires c < |w.phase|
  {
    match w.phase[c]
    case Claiming(i) => Some(Claim(c, i))
    case Pushing(i) => Some(Push(c, i))
    case _ => None
  }

  function Send(w: World, c: nat, phase: Phase, req: Request): World
    requires c < |w.phase|
  {
    w.(phase := w.phase[c := phase], pending := w.pending + {req})
  }

  /** The server runs a request: HSETNX answers whether the field is new. */
  function Served(calls: seq<Call>, w: World, req: Request): World
    requires req.call < |calls|
  {
    match req
    case Claim(c, _) =>
      var key := calls[c].key;
      var isNew := key !in w.mutex;
      w.(pending := w.pending - {req}, answers := w.answers[req := isNew], mutex := w.mutex + {key},
         granted := if isNew then w.granted[key := req] else w.granted)
    case Push(c, _) =>
      w.(pending := w.pending - {req}, answers := w.answers[req := true], queue := w.queue + [c])
  }

  /** The caller has the answer of its request. */
  function Received(calls: seq<Call>, w: World, c: nat, answer: bool): World
    requires c < |calls| && c < |w.phase| && Waiting(w, c).Some?
  {
    if w.phase[c].Pushing? then w.(phase := w.phase[c := Done])
    else if !answer then w.(phase := w.phase[c := Skipped])
    else
      var in' := w.(entered := w.entered + [c]);
      if calls[c].action.PushEvent? then Send(in', c, Pushing(0), Push(c, 0))
      else in'.(phase := w.phase[c := Done], effects := w.effects + [c])
  }

  /** The end of a call whose command failed: a failed HSETNX reads as false. */
  function AfterFailure(p: Phase): Phase {
    if p.Claiming? then Skipped else Done
  }

  /** The caller no longer waits for its request. */
  function Abandon(w: World, c: nat): World
    requires c < |w.phase|
  {
    if Waiting(w, c).Some? then w.(lost := w.lost + {Waiting(w, c).value}) else w
  }

  /** The retry loop of process after a network error. */
  function Retried(w: World, c: nat): World
    requires c < |w.phase| && Waiting(w, c).Some?
  {
    var given := Abandon(w, c);
    match w.phase[c]
    case Claiming(i) =>
      if i < MAX_RETRIES then Send(given, c, Claiming(i + 1), Claim(c, i + 1)) else given.(phase := w.phase[c := Skipped])
    case Pushing(i) =>
      if i < MAX_RETRIES then Send(given, c, Pushing(i + 1), Push(c, i + 1)) else given.(phase := w.phase[c := Done])
  }

  function Stopped(w: World, c: nat, phase: Phase): World
    requires c < |w.phase|
  {
    Abandon(w, c).(phase := w.phase[c := phase])
  }

  predicate Enabled(calls: seq<Call>, w: World, s: Step)
    requires |w.phase| == |calls|
  {
    match s
    case Begin(c) => c < |calls| && w.phase[c].Idle?
    case Serve(req) => req in w.pending && req.call < |calls|
    case Receive(c) => c < |calls| && Waiting(w, c).Some? && Waiting(w, c).value in w.answers
    case Drop(req) => req in w.pending
    case GiveUp(c) => c < |calls| && Waiting(w, c).Some?
    case Fail(c) => c < |calls| && Waiting(w, c).Some?
    case Crash(c) => c < |calls|
  }

  function Apply(calls: seq<Call>, w: World, s: Step): (w': World)
    requires |w.phase| == |calls| && Enabled(calls, w, s)
    ensures |w'.phase| == |calls|
  {
    match s
    case Begin(c) => Send(w, c, Claiming(0), Claim(c, 0))
    case Serve(req) => Served(calls, w, req)
    case Receive(c) => Received(calls, w, c, w.answers[Waiting(w, c).value])
    case Drop(req) => w.(pending := w.pending - {req})
    case GiveUp(c) => Retried(w, c)
    case Fail(c) => Stopped(w, c, AfterFailure(w.phase[c]))
    case Crash(c) => Stopped(w, c, Crashed)
  }

  /** The world after some interleaving of steps of all instances, the server and the network. */
  function Run(calls: seq<Call>, steps: seq<Step>): (w: Option<World>)
    ensures w.Some? ==> |w.value.phase| == |calls|
    decreases |steps|
  {
    if steps == [] then Some(Start(calls))
    else
      var last := |steps| - 1;
      match Run(calls, steps[..last])
      case None => None
      case Some(w) => if Enabled(calls, w, steps[last]) then Some(Apply(calls, w, steps[last])) else None
  }

  // Requests --------------------------------------------------------------------------

  /** Could a call in phase p have sent req? */
  predicate Sent(p: Phase, req: Request) {
    match p
    case Idle => false
    case Claiming(i) => req.Claim? && req.attempt <= i
    case Pushing(i) => req.Push? ==> req.attempt <= i
    case Skipped => req.Claim?
    case _ => true
  }

  predicate Known(w: World, req: Request) {
    req in w.pending || req in w.answers
  }

  /** Requests are those the calls sent, lost ones were given up, and each is served at most once. */
  ghost predicate Requests(calls: seq<Call>, w: World) {
    && |w.phase| == |calls|
    && (forall req | req in w.pending :: req.call < |calls| && Sent(w.phase[req.call], req) && req !in w.answers)
    && (forall req | req in w.pending :: req in w.lost || Waiting(w, req.call) == Some(req))
    && (forall req | req in w.answers :: req.call < |calls| && Sent(w.phase[req.call], req))
    && (forall req | req in w.lost :: req.call < |calls| && Sent(w.phase[req.call], req) && Waiting(w, req.call) != Some(req))
  }

  /** A call moves on to phase p': what it had sent, it could have sent before p' as well. */
  ghost predicate MovesTo(p: Phase, p': Phase) {
    forall req: Request | Sent(p, req) :: Sent(p', req)
  }

  predicate Ended(p: Phase) {
    !p.Idle? && !p.Claiming? && !p.Pushing?
  }

  lemma {:induction false} RequestsEnd(calls: seq<Call>, w: World, c: nat, p: Phase)
    requires Requests(calls, w) && c < |calls| && MovesTo(w.phase[c], p) && Ended(p)
    requires Waiting(w, c).Some? ==> Waiting(w, c).value in w.answers
    ensures Requests(calls, w.(phase := w.phase[c := p]))
  {
  }

  lemma {:induction false} RequestsSend(calls: seq<Call>, w: World, c: nat, p: Phase, req: Request)
    requires Requests(calls, w) && c < |calls| && MovesTo(w.phase[c], p) && req.call == c
    requires !Sent(w.phase[c], req) && Sent(p, req) && Waiting(Send(w, c, p, req), c) == Some(req)
    requires Waiting(w, c).Some? ==> Waiting(w, c).value in w.answers
    ensures Requests(calls, Send(w, c, p, req))
  {
  }

  lemma {:induction false} RequestsLost(calls: seq<Call>, w: World, c: nat, p: Phase)
    requires Requests(calls, w) && c < |calls| && MovesTo(w.phase[c], p) && Ended(p)
    ensures Requests(calls, Abandon(w, c).(phase := w.phase[c := p]))
  {
  }

  lemma {:induction false} RequestsRetry(calls: seq<Call>, w: World, c: nat, p: Phase, req: Request)
    requires Requests(calls, w) && c < |calls| && Waiting(w, c).Some? && MovesTo(w.phase[c], p) && req.call == c
    requires !Sent(w.phase[c], req) && Sent(p, req) && Waiting(Send(w, c, p, req), c) == Some(req)
    ensures Requests(calls, Send(Abandon(w, c), c, p, req))
  {
  }

  lemma {:induction false} RequestsServed(calls: seq<Call>, w: World, req: Request)
    requires Requests(calls, w) && req in w.pending
    ensures Requests(calls, Served(calls, w, req))
  {
  }

  lemma {:induction false} RequestsReceived(calls: seq<Call>, w: World, c: nat)
    requires Requests(calls, w) && Enabled(calls, w, Receive(c))
    ensures Requests(calls, Apply(calls, w, Receive(c)))
  {
    var answer := w.answers[Waiting(w, c).value];
    if w.phase[c].Pushing? {
      RequestsEnd(calls, w, c, Done);
    } else if !answer {
      RequestsEnd(calls, w, c, Skipped);
    } else if calls[c].action.PushEvent? {
      var in' := w.(entered := w.entered + [c]);
      assert Requests(calls, in');
      RequestsSend(calls, in', c, Pushing(0), Push(c, 0));
    } else {
      RequestsEnd(calls, w, c, Done);
    }
  }

  lemma {:induction false} RetryMoves(i: nat)
    ensures MovesTo(Claiming(i), Claiming(i + 1)) && MovesTo(Claiming(i), Skipped)
    ensures MovesTo(Pushing(i), Pushing(i + 1)) && MovesTo(Pushing(i), Done)
  {
  }

  lemma {:induction false} RequestsGiveUpClaim(calls: seq<Call>, w: World, c: nat, i: nat)
    requires Requests(calls, w) && c < |calls| && w.phase[c] == Claiming(i)
    ensures Requests(calls, Retried(w, c))
  {
    RetryMoves(i);
    if i < MAX_RETRIES {
      RequestsRetry(calls, w, c, Claiming(i + 1), Claim(c, i + 1));
    } else {
      RequestsLost(calls, w, c, Skipped);
    }
  }

  lemma {:induction false} RequestsGiveUpPush(calls: seq<Call>, w: World, c: nat, i: nat)
    requires Requests(calls, w) && c < |calls| && w.phase[c] == Pushing(i)
    ensures Requests(calls, Retried(w, c))
  {
    RetryMoves(i);
    if i < MAX_RETRIES {
      RequestsRetry(calls, w, c, Pushing(i + 1), Push(c, i + 1));
    } else {
      RequestsLost(calls, w, c, Done);
    }
  }

  lemma {:induction false} RequestsGiveUp(calls: seq<Call>, w: World, c: nat)
    requires Requests(calls, w) && Enabled(calls, w, GiveUp(c))
    ensures Requests(calls, Retried(w, c))
  {
    match w.phase[c]
    case Claiming(i) => RequestsGiveUpClaim(calls, w, c, i);
    case Pushing(i) => RequestsGiveUpPush(calls, w, c, i);
  }

  lemma {:induction false} RequestsStep(calls: seq<Call>, w: World, s: Step)
    requires Requests(calls, w) && Enabled(calls, w, s)
    ensures Requests(calls, Apply(calls, w, s))
  {
    match s
    case Begin(c) => RequestsSend(calls, w, c, Claiming(0), Claim(c, 0));
    case Serve(req) => RequestsServed(calls, w, req);
    case Receive(c) => RequestsReceived(calls, w, c);
    case Drop(req) =>
    case GiveUp(c) => RequestsGiveUp(calls, w, c);
    case Fail(c) => RequestsLost(calls, w, c, AfterFailure(w.phase[c]));
    case Crash(c) => RequestsLost(calls, w, c, Crashed);
  }

  // Winners ---------------------------------------------------------------------------

  /** Every mutex key was created by exactly one claim, and only that claim was answered true. */
  ghost predicate Granted(calls: seq<Call>, granted: map<string, Request>, mutex: set<string>, answers: map<Request, bool>) {
    && granted.Keys == mutex
    && (forall k | k in granted ::
          granted[k].Claim? && granted[k] in answers && answers[granted[k]]
          && granted[k].call < |calls| && calls[granted[k].call].key == k)
    && (forall req | req in answers && req.Claim? :: req.call < |calls| && calls[req.call].key in mutex)
    && (forall req | req in answers && req.Claim? && answers[req] ::
          calls[req.call].key in granted && granted[calls[req.call].key] == req)
  }

  ghost predicate Grants(calls: seq<Call>, w: World) {
    Granted(calls, w.granted, w.mutex, w.answers)
  }

  lemma {:induction false} GrantsServed(calls: seq<Call>, w: World, req: Request)
    requires Requests(calls, w) && Grants(calls, w) && req in w.pending
    ensures Grants(calls, Served(calls, w, req))
  {
  }

  lemma {:induction false} OnlyServe(calls: seq<Call>, w: World, s: Step)
    requires |w.phase| == |calls| && Enabled(calls, w, s) && !s.Serve?
    ensures var w' := Apply(calls, w, s);
            w'.granted == w.granted && w'.mutex == w.mutex && w'.answers == w.answers && w'.queue == w.queue
  {
  }

  lemma {:induction false} GrantsStep(calls: seq<Call>, w: World, s: Step)
    requires Requests(calls, w) && Grants(calls, w) && Enabled(calls, w, s)
    ensures Grants(calls, Apply(calls, w, s))
  {
    if s.Serve? {
      GrantsServed(calls, w, s.req);
    } else {
      OnlyServe(calls, w, s);
    }
  }

  /** A call in the sending branch, or past it. */
  predicate Inside(p: Phase) {
    p.Pushing? || p.Done? || p.Crashed?
  }

  /** Who entered holds the grant of its key; who holds a grant that was not lost has entered, or is about to. */
  ghost predicate Winners(calls: seq<Call>, w: World) {
    && |w.phase| == |calls|
    && (forall c | c in w.entered ::
          c < |calls| && Inside(w.phase[c]) && calls[c].key in w.granted
          && w.granted[calls[c].key].call == c && w.granted[calls[c].key] !in w.lost)
    && (forall k | k in w.granted && w.granted[k] !in w.lost ::
          w.granted[k].call < |calls|
          && (w.granted[k].call in w.entered || Waiting(w, w.granted[k].call) == Some(w.granted[k])))
    && (forall i, j | 0 <= i < j < |w.entered| :: w.entered[i] != w.entered[j])
  }

  lemma {:induction false} WinnersServed(calls: seq<Call>, w: World, req: Request)
    requires Requests(calls, w) && Grants(calls, w) && Winners(calls, w) && req in w.pending
    ensures Winners(calls, Served(calls, w, req))
  {
  }

  lemma {:induction false} WinnersBegin(calls: seq<Call>, w: World, c: nat)
    requires Requests(calls, w) && Grants(calls, w) && Winners(calls, w) && Enabled(calls, w, Begin(c))
    ensures Winners(calls, Apply(calls, w, Begin(c)))
  {
  }

  lemma {:induction false} WinnersEnter(calls: seq<Call>, w: World, c: nat, p: Phase)
    requires Requests(calls, w) && Grants(calls, w) && Winners(calls, w) && Enabled(calls, w, Receive(c))
    requires w.phase[c].Claiming? && w.answers[Waiting(w, c).value] && Inside(p)
    ensures Winners(calls, w.(phase := w.phase[c := p], entered := w.entered + [c]))
  {
  }

  lemma {:induction false} WinnersEnd(calls: seq<Call>, w: World, c: nat, p: Phase)
    requires Requests(calls, w) && Grants(calls, w) && Winners(calls, w) && c < |calls|
    requires Inside(w.phase[c]) ==> Inside(p)
    requires w.phase[c].Claiming? ==> Waiting(w, c).value in w.answers && !w.answers[Waiting(w, c).value]
    ensures Winners(calls, w.(phase := w.phase[c := p]))
  {
  }

  lemma {:induction false} WinnersLost(calls: seq<Call>, w: World, c: nat, p: Phase)
    requires Requests(calls, w) && Grants(calls, w) && Winners(calls, w) && c < |calls|
    requires Inside(w.phase[c]) ==> Inside(p)
    ensures Winners(calls, Abandon(w, c).(phase := w.phase[c := p]))
  {
  }

  lemma {:induction false} WinnersSend(calls: seq<Call>, w: World, c: nat, p: Phase, req: Request)
    requires c < |w.phase| && Winners(calls, w.(phase := w.phase[c := p]))
    ensures Winners(calls, Send(w, c, p, req))
  {
  }

  lemma {:induction false} WinnersStep(calls: seq<Call>, w: World, s: Step)
    requires Requests(calls, w) && Grants(calls, w) && Winners(calls, w) && Enabled(calls, w, s)
    ensures Winners(calls, Apply(calls, w, s))
  {
    match s
    case Begin(c) => WinnersBegin(calls, w, c);
    case Serve(req) => WinnersServed(calls, w, req);
    case Receive(c) => WinnersReceived(calls, w, c);
    case Drop(req) =>
    case GiveUp(c) => WinnersGiveUp(calls, w, c);
    case Fail(c) => WinnersLost(calls, w, c, AfterFailure(w.phase[c]));
    case Crash(c) => WinnersLost(calls, w, c, Crashed);
  }

  lemma {:induction false} WinnersReceived(calls: seq<Call>, w: World, c: nat)
    requires Requests(calls, w) && Grants(calls, w) && Winners(calls, w) && Enabled(calls, w, Receive(c))
    ensures Winners(calls, Apply(calls, w, Receive(c)))
  {
    var answer := w.answers[Waiting(w, c).value];
    if w.phase[c].Pushing? {
      WinnersEnd(calls, w, c, Done);
    } else if !answer {
      WinnersEnd(calls, w, c, Skipped);
    } else if calls[c].action.PushEvent? {
      WinnersEnter(calls, w, c, Pushing(0));
      WinnersSend(calls, w.(entered := w.entered + [c]), c, Pushing(0), Push(c, 0));
    } else {
      WinnersEnter(calls, w, c, Done);
    }
  }

  lemma {:induction false} WinnersRetry(calls: seq<Call>, w: World, c: nat, p: Phase, req: Request)
    requires Requests(calls, w) && Grants(calls, w) && Winners(calls, w) && c < |calls|
    requires Inside(w.phase[c]) ==> Inside(p)
    ensures Winners(calls, Send(Abandon(w, c), c, p, req))
  {
    WinnersLost(calls, w, c, p);
    WinnersSend(calls, Abandon(w, c), c, p, req);
  }

  lemma {:induction false} WinnersGiveUpClaim(calls: seq<Call>, w: World, c: nat, i: nat)
    requires Requests(calls, w) && Grants(calls, w) && Winners(calls, w) && c < |calls| && w.phase[c] == Claiming(i)
    ensures Winners(calls, Retried(w, c))
  {
    if i < MAX_RETRIES {
      WinnersRetry(calls, w, c, Claiming(i + 1), Claim(c, i + 1));
    } else {
      WinnersLost(calls, w, c, Skipped);
    }
  }

  lemma {:induction false} WinnersGiveUpPush(calls: seq<Call>, w: World, c: nat, i: nat)
    requires Requests(calls, w) && Grants(calls, w) && Winners(calls, w) && c < |calls| && w.phase[c] == Pushing(i)
    ensures Winners(calls, Retried(w, c))
  {
    if i < MAX_RETRIES {
      WinnersRetry(calls, w, c, Pushing(i + 1), Push(c, i + 1));
    } else {
      WinnersLost(calls, w, c, Done);
    }
  }

  lemma {:induction false} WinnersGiveUp(calls: seq<Call>, w: World, c: nat)
    requires Requests(calls, w) && Grants(calls, w) && Winners(calls, w) && Enabled(calls, w, GiveUp(c))
    ensures Winners(calls, Retried(w, c))
  {
    match w.phase[c]
    case Claiming(i) => WinnersGiveUpClaim(calls, w, c, i);
    case Pushing(i) => WinnersGiveUpPush(calls, w, c, i);
  }

  // What the winners do ---------------------------------------------------------------

  function CountOf(q: seq<nat>, c: nat): nat {
    if q == [] then 0 else CountOf(q[..|q| - 1], c) + if q[|q| - 1] == c then 1 else 0
  }

  /** How many of the first n pushes of c the server has run. */
  function Pushed(answers: map<Request, bool>, c: nat, n: nat): nat {
    if n == 0 then 0 else Pushed(answers, c, n - 1) + if Push(c, n - 1) in answers then 1 else 0
  }

  /** The calls among cs that act without Redis, in order. */
  function Acting(calls: seq<Call>, cs: seq<nat>): seq<nat> {
    if cs == [] then [] else
      var last := cs[|cs| - 1];
      Acting(calls, cs[..|cs| - 1]) + if last < |calls| && !calls[last].action.PushEvent? then [last] else []
  }

  lemma {:induction false} PushedAnswer(answers: map<Request, bool>, req: Request, yes: bool, c: nat, n: nat)
    requires req !in answers
    ensures Pushed(answers[req := yes], c, n) ==
            Pushed(answers, c, n) + if req.Push? && req.call == c && req.attempt < n then 1 else 0
  {
    if n > 0 {
      PushedAnswer(answers, req, yes, c, n - 1);
    }
  }

  lemma {:induction false} PushedFirst(answers: map<Request, bool>, c: nat, n: nat)
    requires forall a: nat | 0 < a :: Push(c, a) !in answers
    ensures Pushed(answers, c, n) == if n > 0 && Push(c, 0) in answers then 1 else 0
  {
    if n > 0 {
      PushedFirst(answers, c, n - 1);
    }
  }

  lemma {:induction false} CountSnoc(q: seq<nat>, x: nat, c: nat)
    ensures CountOf(q + [x], c) == CountOf(q, c) + if x == c then 1 else 0
  {
    assert (q + [x])[..|q|] == q;
  }

  /** A push comes from a winner, and a second attempt only after the first was given up. */
  predicate GoodPush(calls: seq<Call>, w: World, req: Request) {
    && req.call < |calls| && req.call in w.entered && calls[req.call].action.PushEvent?
    && req.attempt <= MAX_RETRIES && (req.attempt > 0 ==> Push(req.call, 0) in w.lost)
  }

  ghost predicate Pushes(calls: seq<Call>, w: World) {
    && |w.phase| == |calls|
    && (forall req | req in w.pending && req.Push? :: GoodPush(calls, w, req))
    && (forall req | req in w.answers && req.Push? :: GoodPush(calls, w, req))
    && (forall c: nat | c < |calls| && w.phase[c].Pushing? :: GoodPush(calls, w, Push(c, w.phase[c].attempt)))
    && (forall c: nat | c < |calls| && w.phase[c].Done? ::
          c in w.entered && (calls[c].action.PushEvent? && Push(c, 0) !in w.lost ==> Push(c, 0) in w.answers))
  }

  ghost predicate Queued(w: World) {
    forall c: nat :: CountOf(w.queue, c) == Pushed(w.answers, c, MAX_RETRIES + 1)
  }

  lemma {:induction false} PushesServed(calls: seq<Call>, w: World, req: Request)
    requires Pushes(calls, w) && req in w.pending && req.call < |calls|
    ensures Pushes(calls, Served(calls, w, req))
  {
  }

  lemma {:induction false} PushesEnd(calls: seq<Call>, w: World, c: nat, p: Phase)
    requires Pushes(calls, w) && c < |calls| && !p.Pushing?
    requires p.Done? ==> c in w.entered &&
                         (calls[c].action.PushEvent? && Push(c, 0) !in w.lost ==> Push(c, 0) in w.answers)
    ensures Pushes(calls, w.(phase := w.phase[c := p]))
  {
  }

  lemma {:induction false} PushesLost(calls: seq<Call>, w: World, c: nat)
    requires Pushes(calls, w) && c < |calls|
    ensures Pushes(calls, Abandon(w, c))
  {
  }

  lemma {:induction false} PushesSend(calls: seq<Call>, w: World, c: nat, i: nat)
    requires Pushes(calls, w) && c < |calls| && GoodPush(calls, w, Push(c, i))
    ensures Pushes(calls, Send(w, c, Pushing(i), Push(c, i)))
  {
  }

  lemma {:induction false} PushesClaim(calls: seq<Call>, w: World, c: nat, i: nat)
    requires Pushes(calls, w) && c < |calls|
    ensures Pushes(calls, Send(w, c, Claiming(i), Claim(c, i)))
  {
  }

  lemma {:induction false} PushesEnter(calls: seq<Call>, w: World, c: nat)
    requires Pushes(calls, w) && c < |calls|
    ensures Pushes(calls, w.(entered := w.entered + [c]))
  {
  }

  lemma {:induction false} QueuedServed(calls: seq<Call>, w: World, req: Request)
    requires Requests(calls, w) && Pushes(calls, w) && Queued(w) && req in w.pending
    ensures Queued(Served(calls, w, req))
  {
    var w' := Served(calls, w, req);
    forall c: nat
      ensures CountOf(w'.queue, c) == Pushed(w'.answers, c, MAX_RETRIES + 1)
    {
      PushedAnswer(w.answers, req, w'.answers[req], c, MAX_RETRIES + 1);
      CountSnoc(w.queue, req.call, c);
    }
  }

  lemma {:induction false} PushesReceived(calls: seq<Call>, w: World, c: nat)
    requires Pushes(calls, w) && Enabled(calls, w, Receive(c))
    ensures Pushes(calls, Apply(calls, w, Receive(c)))
  {
    var answer := w.answers[Waiting(w, c).value];
    if w.phase[c].Pushing? {
      PushesEnd(calls, w, c, Done);
    } else if !answer {
      PushesEnd(calls, w, c, Skipped);
    } else {
      var in' := w.(entered := w.entered + [c]);
      PushesEnter(calls, w, c);
      if calls[c].action.PushEvent? {
        PushesSend(calls, in', c, 0);
      } else {
        PushesEnd(calls, in', c, Done);
      }
    }
  }

  lemma {:induction false} PushesGiveUp(calls: seq<Call>, w: World, c: nat)
    requires Pushes(calls, w) && Enabled(calls, w, GiveUp(c))
    ensures Pushes(calls, Retried(w, c))
  {
    PushesLost(calls, w, c);
    match w.phase[c]
    case Claiming(i) =>
      if i < MAX_RETRIES {
        PushesClaim(calls, Abandon(w, c), c, i + 1);
      } else {
        PushesEnd(calls, Abandon(w, c), c, Skipped);
      }
    case Pushing(i) =>
      assert GoodPush(calls, w, Push(c, i));
      if i < MAX_RETRIES {
        PushesSend(calls, Abandon(w, c), c, i + 1);
      } else {
        PushesEnd(calls, Abandon(w, c), c, Done);
      }
  }

  lemma {:induction false} PushesStep(calls: seq<Call>, w: World, s: Step)
    requires Pushes(calls, w) && Enabled(calls, w, s)
    ensures Pushes(calls, Apply(calls, w, s))
  {
    match s
    case Begin(c) => PushesClaim(calls, w, c, 0);
    case Serve(req) => PushesServed(calls, w, req);
    case Receive(c) => PushesReceived(calls, w, c);
    case Drop(req) =>
    case GiveUp(c) => PushesGiveUp(calls, w, c);
    case Fail(c) =>
      PushesLost(calls, w, c);
      PushesEnd(calls, Abandon(w, c), c, AfterFailure(w.phase[c]));
    case Crash(c) =>
      PushesLost(calls, w, c);
      PushesEnd(calls, Abandon(w, c), c, Crashed);
  }

  lemma {:induction false} ActingStep(calls: seq<Call>, w: World, s: Step)
    requires |w.phase| == |calls| && Enabled(calls, w, s) && w.effects == Acting(calls, w.entered)
    ensures var w' := Apply(calls, w, s); w'.effects == Acting(calls, w'.entered)
  {
    if s.Receive? {
      assert (w.entered + [s.call])[..|w.entered|] == w.entered;
    }
  }

  lemma {:induction false} QueuedStep(calls: seq<Call>, w: World, s: Step)
    requires Requests(calls, w) && Pushes(calls, w) && Queued(w) && Enabled(calls, w, s)
    ensures Queued(Apply(calls, w, s))
  {
    if s.Serve? {
      QueuedServed(calls, w, s.req);
    } else {
      OnlyServe(calls, w, s);
    }
  }

  // Every run -------------------------------------------------------------------------

  ghost predicate Inv(calls: seq<Call>, w: World) {
    Requests(calls, w) && Grants(calls, w) && Winners(calls, w) && Pushes(calls, w) && Queued(w)
    && w.effects == Acting(calls, w.entered)
  }

  lemma {:induction false} InvStep(calls: seq<Call>, w: World, s: Step)
    requires Inv(calls, w) && Enabled(calls, w, s)
    ensures Inv(calls, Apply(calls, w, s))
  {
    RequestsStep(calls, w, s);
    GrantsStep(calls, w, s);
    WinnersStep(calls, w, s);
    PushesStep(calls, w, s);
    QueuedStep(calls, w, s);
    ActingStep(calls, w, s);
  }

  lemma {:induction false} InvStart(calls: seq<Call>)
    ensures Inv(calls, Start(calls))
  {
    var w := Start(calls);
    forall c: nat
      ensures CountOf(w.queue, c) == Pushed(w.answers, c, MAX_RETRIES + 1)
    {
      PushedFirst(w.answers, c, MAX_RETRIES + 1);
    }
  }

  lemma {:induction false} InvRun(calls: seq<Call>, steps: seq<Step>)
    requires Run(calls, steps).Some?
    ensures Inv(calls, Run(calls, steps).value)
    decreases |steps|
  {
    if steps == [] {
      InvStart(calls);
    } else {
      var before := steps[..|steps| - 1];
      InvRun(calls, before);
      InvStep(calls, Run(calls, before).value, steps[|steps| - 1]);
    }
  }

  /** In every run, with any crashes, losses and retries, at most one call per mutex key enters the sending branch. */
  lemma {:induction false} AtMostOnce(calls: seq<Call>, steps: seq<Step>, i: nat, j: nat)
    requires Run(calls, steps).Some? && i < j < |Run(calls, steps).value.entered|
    ensures var entered := Run(calls, steps).value.entered;
            entered[i] < |calls| && entered[j] < |calls| && calls[entered[i]].key != calls[entered[j]].key
  {
    InvRun(calls, steps);
    var w := Run(calls, steps).value;
    assert w.entered[i] in w.entered && w.entered[j] in w.entered;
  }

  /** When no call waits any more: a claimed key has a winner exactly when the answer to the winning HSETNX was not lost. */
  lemma {:induction false} WinnerIff(calls: seq<Call>, steps: seq<Step>, key: string)
    requires Run(calls, steps).Some? && key in Run(calls, steps).value.mutex
    requires var w := Run(calls, steps).value; forall c: nat | c < |calls| :: Waiting(w, c).None?
    ensures var w := Run(calls, steps).value;
            key in w.granted &&
            ((exists c :: c in w.entered && c < |calls| && calls[c].key == key) <==> w.granted[key] !in w.lost)
  {
    InvRun(calls, steps);
    var w := Run(calls, steps).value;
    assert key in w.granted;
    if w.granted[key] !in w.lost {
      assert w.granted[key].call in w.entered;
    }
  }

  /**
   * Each event is in the queue as often as Redis ran one of its RPUSH attempts, at most once when the first
   * attempt was not given up, and exactly once when that attempt was answered.
   */
  lemma {:induction false} QueueContents(calls: seq<Call>, steps: seq<Step>, c: nat)
    requires Run(calls, steps).Some? && c < |calls|
    ensures var w := Run(calls, steps).value;
            && CountOf(w.queue, c) == Pushed(w.answers, c, MAX_RETRIES + 1)
            && (CountOf(w.queue, c) > 0 ==> c in w.entered && calls[c].action.PushEvent?)
            && (Push(c, 0) !in w.lost ==> CountOf(w.queue, c) <= 1)
            && (Push(c, 0) !in w.lost && w.phase[c].Done? && calls[c].action.PushEvent? ==> CountOf(w.queue, c) == 1)
  {
    InvRun(calls, steps);
    var w := Run(calls, steps).value;
    if c !in w.entered || !calls[c].action.PushEvent? {
      assert forall a: nat :: Push(c, a) !in w.answers;
      PushedFirst(w.answers, c, MAX_RETRIES + 1);
    } else if Push(c, 0) !in w.lost {
      assert forall a: nat | 0 < a :: Push(c, a) !in w.answers;
      PushedFirst(w.answers, c, MAX_RETRIES + 1);
    }
  }

  // Retries ---------------------------------------------------------------------------

  predicate ClaimsLost(w: World, c: nat, n: nat) {
    forall a: nat | a < n :: Claim(c, a) in w.lost
  }

  predicate PushesLostTo(w: World, c: nat, n: nat) {
    forall a: nat | a < n :: Push(c, a) in w.lost
  }

  /** The call was told that its key is taken. */
  ghost predicate ToldTaken(w: World, c: nat) {
    exists a: nat :: Claim(c, a) in w.answers && !w.answers[Claim(c, a)] && Claim(c, a) !in w.lost
  }

  ghost predicate ToldPushed(w: World, c: nat) {
    exists a: nat :: Push(c, a) in w.answers && Push(c, a) !in w.lost
  }

  /** A call gives up only after an answer, a failure that is not retried, or six lost attempts. */
  ghost predicate Persists(calls: seq<Call>, w: World, steps: seq<Step>, c: nat)
    requires c < |w.phase| && c < |calls|
  {
    match w.phase[c]
    case Idle => true
    case Claiming(i) => i < 6 && ClaimsLost(w, c, i)
    case Skipped => ToldTaken(w, c) || Fail(c) in steps || ClaimsLost(w, c, 6)
    case Pushing(i) => i < 6 && PushesLostTo(w, c, i)
    case Done => calls[c].action.PushEvent? ==> ToldPushed(w, c) || Fail(c) in steps || PushesLostTo(w, c, 6)
    case Crashed => Crash(c) in steps
  }

  /** Steps of other calls, of the server and the network. */
  lemma {:induction false} PersistsOther(calls: seq<Call>, w: World, w': World, steps: seq<Step>, s: Step, c: nat)
    requires c < |calls| && c < |w.phase| && c < |w'.phase| && w'.phase[c] == w.phase[c] && Persists(calls, w, steps, c)
    requires w.lost <= w'.lost && forall req | req in w'.lost && req !in w.lost :: req.call != c
    requires forall req | req in w.answers :: req in w'.answers && w'.answers[req] == w.answers[req]
    ensures Persists(calls, w', steps + [s], c)
  {
    match w.phase[c]
    case Skipped =>
      if ToldTaken(w, c) {
        var a: nat :| Claim(c, a) in w.answers && !w.answers[Claim(c, a)] && Claim(c, a) !in w.lost;
        assert ToldTaken(w', c);
      }
    case Done =>
      if ToldPushed(w, c) {
        var a: nat :| Push(c, a) in w.answers && Push(c, a) !in w.lost;
        assert ToldPushed(w', c);
      }
    case _ =>
  }

  lemma {:induction false} PersistsReceived(calls: seq<Call>, w: World, steps: seq<Step>, c: nat)
    requires Requests(calls, w) && Enabled(calls, w, Receive(c)) && Persists(calls, w, steps, c)
    ensures Persists(calls, Apply(calls, w, Receive(c)), steps + [Receive(c)], c)
  {
    var w' := Apply(calls, w, Receive(c));
    var req := Waiting(w, c).value;
    assert req in w'.answers && req !in w'.lost;
    if w'.phase[c].Skipped? {
      assert ToldTaken(w', c);
    } else if w.phase[c].Pushing? {
      assert ToldPushed(w', c);
    }
  }

  lemma {:induction false} PersistsGiveUp(calls: seq<Call>, w: World, steps: seq<Step>, c: nat)
    requires |w.phase| == |calls| && Enabled(calls, w, GiveUp(c)) && Persists(calls, w, steps, c)
    ensures Persists(calls, Apply(calls, w, GiveUp(c)), steps + [GiveUp(c)], c)
  {
    var w' := Apply(calls, w, GiveUp(c));
    match w.phase[c]
    case Claiming(i) => assert ClaimsLost(w', c, i + 1);
    case Pushing(i) => assert PushesLostTo(w', c, i + 1);
  }

  lemma {:induction false} PersistsStop(calls: seq<Call>, w: World, steps: seq<Step>, s: Step, c: nat)
    requires |w.phase| == |calls| && Enabled(calls, w, s) && (s == Fail(c) || s == Crash(c) || s == Begin(c))
    ensures Persists(calls, Apply(calls, w, s), steps + [s], c)
  {
    assert s in steps + [s];
  }

  lemma {:induction false} PersistsStep(calls: seq<Call>, w: World, steps: seq<Step>, s: Step, c: nat)
    requires Requests(calls, w) && Enabled(calls, w, s) && c < |calls| && Persists(calls, w, steps, c)
    ensures Persists(calls, Apply(calls, w, s), steps + [s], c)
  {
    if s == Receive(c) {
      PersistsReceived(calls, w, steps, c);
    } else if s == GiveUp(c) {
      PersistsGiveUp(calls, w, steps, c);
    } else if s == Fail(c) || s == Crash(c) || s == Begin(c) {
      PersistsStop(calls, w, steps, s, c);
    } else {
      PersistsOther(calls, w, Apply(calls, w, s), steps, s, c);
    }
  }

  /** In every run, a call ends only after an answer, a failure that is not retried, a crash, or six lost attempts. */
  lemma {:induction false} PersistsRun(calls: seq<Call>, steps: seq<Step>, c: nat)
    requires Run(calls, steps).Some? && c < |calls|
    ensures Persists(calls, Run(calls, steps).value, steps, c)
    decreases |steps|
  {
    if steps != [] {
      var before, s := steps[..|steps| - 1], steps[|steps| - 1];
      PersistsRun(calls, before, c);
      InvRun(calls, before);
      PersistsStep(calls, Run(calls, before).value, before, s, c);
      assert before + [s] == steps;
    }
  }

  /** Nothing but lost messages went wrong, all calls ended, and none of them lost all six attempts of a request. */
  ghost predicate OnlyDrops(calls: seq<Call>, steps: seq<Step>, w: World) {
    && AllEnded(w) && (forall s | s in steps :: !s.Fail? && !s.Crash?)
    && (forall c: nat | c < |calls| :: !ClaimsLost(w, c, 6) && !PushesLostTo(w, c, 6))
  }

  lemma {:induction false} PushedSome(answers: map<Request, bool>, c: nat, a: nat, n: nat)
    requires Push(c, a) in answers && a < n
    ensures Pushed(answers, c, n) > 0
  {
    if a < n - 1 {
      PushedSome(answers, c, a, n - 1);
    }
  }

  /** Then every key is claimed, and who won a key with an answer that was not lost has put its event into the queue. */
  lemma {:induction false} DropsAreRetried(calls: seq<Call>, steps: seq<Step>, c: nat)
    requires Run(calls, steps).Some? && c < |calls| && OnlyDrops(calls, steps, Run(calls, steps).value)
    ensures var w := Run(calls, steps).value;
            && calls[c].key in w.granted && calls[c].key in w.mutex
            && (w.granted[calls[c].key] !in w.lost ==>
                  exists d :: d in w.entered && d < |calls| && calls[d].key == calls[c].key
                              && if calls[d].action.PushEvent? then CountOf(w.queue, d) > 0 else CountOf(w.effects, d) == 1)
  {
    InvRun(calls, steps);
    PersistsRun(calls, steps, c);
    var w := Run(calls, steps).value;
    assert w.phase[c].Done? || ToldTaken(w, c);
    if w.granted[calls[c].key] !in w.lost {
      WinnerIff(calls, steps, calls[c].key);
      var d :| d in w.entered && d < |calls| && calls[d].key == calls[c].key;
      PersistsRun(calls, steps, d);
      assert w.phase[d].Done?;
      ActingOnce(calls, w.entered, d);
      if calls[d].action.PushEvent? {
        var a: nat :| Push(d, a) in w.answers && Push(d, a) !in w.lost;
        PushedSome(w.answers, d, a, MAX_RETRIES + 1);
      }
    }
  }

  // Runs in which nothing goes wrong --------------------------------------------------

  ghost predicate Calm(calls: seq<Call>, w: World) {
    && |w.phase| == |calls| && w.lost == {}
    && (forall c: nat | c < |calls| :: !w.phase[c].Crashed? && (!w.phase[c].Idle? ==> Known(w, Claim(c, 0))))
    && (forall c: nat | c < |calls| && Waiting(w, c).Some? :: Known(w, Waiting(w, c).value))
  }

  lemma {:induction false} CalmStep(calls: seq<Call>, w: World, s: Step)
    requires Calm(calls, w) && Enabled(calls, w, s) && Smooth(s)
    ensures Calm(calls, Apply(calls, w, s))
  {
    var w' := Apply(calls, w, s);
    forall c: nat | c < |calls| && Waiting(w', c).Some?
      ensures Known(w', Waiting(w', c).value)
    {
      assert Waiting(w', c) == Waiting(w, c) || Waiting(w', c).value in w'.pending;
    }
  }

  lemma {:induction false} CalmRun(calls: seq<Call>, steps: seq<Step>)
    requires Run(calls, steps).Some? && forall s | s in steps :: Smooth(s)
    ensures Calm(calls, Run(calls, steps).value)
    decreases |steps|
  {
    if steps != [] {
      var before, last := steps[..|steps| - 1], steps[|steps| - 1];
      assert last in steps;
      CalmRun(calls, before);
      CalmStep(calls, Run(calls, before).value, last);
    }
  }

  predicate AllEnded(w: World) {
    forall c: nat | c < |w.phase| :: Ended(w.phase[c])
  }

  /** When no step fails and every call has ended, each key has its one winner, whose effect happened exactly once. */
  lemma {:induction false} ExactlyOnce(calls: seq<Call>, steps: seq<Step>, c: nat)
    requires Run(calls, steps).Some? && (forall s | s in steps :: Smooth(s)) && AllEnded(Run(calls, steps).value)
    requires c < |calls|
    ensures var w := Run(calls, steps).value;
            exists d :: d in w.entered && d < |calls| && calls[d].key == calls[c].key
                        && if calls[d].action.PushEvent? then CountOf(w.queue, d) == 1 else CountOf(w.effects, d) == 1
  {
    InvRun(calls, steps);
    CalmRun(calls, steps);
    var w := Run(calls, steps).value;
    assert Claim(c, 0) in w.answers;
    WinnerIff(calls, steps, calls[c].key);
    var d :| d in w.entered && d < |calls| && calls[d].key == calls[c].key;
    QueueContents(calls, steps, d);
    ActingOnce(calls, w.entered, d);
    assert w.phase[d].Done?;
  }

  predicate Acts(calls: seq<Call>, c: nat) {
    c < |calls| && !calls[c].action.PushEvent?
  }

  lemma {:induction false} ActingSnoc(calls: seq<Call>, cs: seq<nat>, last: nat, c: nat)
    ensures CountOf(Acting(calls, cs + [last]), c) == CountOf(Acting(calls, cs), c) + if last == c && Acts(calls, c) then 1 else 0
  {
    assert (cs + [last])[..|cs|] == cs;
    if Acts(calls, last) {
      CountSnoc(Acting(calls, cs), last, c);
    } else {
      assert Acting(calls, cs) + [] == Acting(calls, cs);
    }
  }

  lemma {:induction false} ActingOnce(calls: seq<Call>, cs: seq<nat>, c: nat)
    requires forall i, j | 0 <= i < j < |cs| :: cs[i] != cs[j]
    ensures CountOf(Acting(calls, cs), c) == if c in cs && Acts(calls, c) then 1 else 0
  {
    if cs != [] {
      var before, last := cs[..|cs| - 1], cs[|cs| - 1];
      assert cs == before + [last];
      ActingOnce(calls, before, c);
      ActingSnoc(calls, before, last, c);
      assert last !in before;
    }
  }

  // Two runs in which an answer is lost -----------------------------------------------

  lemma {:induction false} RunStep(calls: seq<Call>, steps: seq<Step>, w: World, s: Step)
    requires Run(calls, steps) == Some(w) && |w.phase| == |calls| && Enabled(calls, w, s)
    ensures Run(calls, steps + [s]) == Some(Apply(calls, w, s))
  {
    assert (steps + [s])[..|steps|] == steps;
  }

  /** The answer to the winning HSETNX is lost: the retry finds the key taken, and nobody sends. */
  lemma {:induction false} LostAnswerSilences()
    ensures exists calls: seq<Call>, steps: seq<Step> ::
              && Run(calls, steps).Some? && |calls| == 1 && AllEnded(Run(calls, steps).value)
              && calls[0].key in Run(calls, steps).value.mutex && Run(calls, steps).value.entered == []
  {
    var calls := [Call("k", PushEvent)];
    var w0 := Start(calls);
    var w1 := Apply(calls, w0, Begin(0));
    var w2 := Apply(calls, w1, Serve(Claim(0, 0)));
    var w3 := Apply(calls, w2, GiveUp(0));
    var w4 := Apply(calls, w3, Serve(Claim(0, 1)));
    var s1, s2, s3, s4, s5 := Begin(0), Serve(Claim(0, 0)), GiveUp(0), Serve(Claim(0, 1)), Receive(0);
    RunStep(calls, [], w0, s1);
    RunStep(calls, [] + [s1], w1, s2);
    RunStep(calls, [] + [s1] + [s2], w2, s3);
    RunStep(calls, [] + [s1] + [s2] + [s3], w3, s4);
    RunStep(calls, [] + [s1] + [s2] + [s3] + [s4], w4, s5);
    var w5 := Apply(calls, w4, s5);
    assert w5.phase == [Skipped] && AllEnded(w5);
  }

  /** The answer to an RPUSH is lost: the retry puts the event into the queue a second time. */
  lemma {:induction false} LostAnswerDuplicates()
    ensures exists calls: seq<Call>, steps: seq<Step> ::
              Run(calls, steps).Some? && |calls| == 1 && Run(calls, steps).value.queue == [0, 0]
  {
    var calls := [Call("k", PushEvent)];
    var w0 := Start(calls);
    var w1 := Apply(calls, w0, Begin(0));
    var w2 := Apply(calls, w1, Serve(Claim(0, 0)));
    var w3 := Apply(calls, w2, Receive(0));
    var w4 := Apply(calls, w3, Serve(Push(0, 0)));
    var w5 := Apply(calls, w4, GiveUp(0));
    var s1, s2, s3, s4, s5, s6 := Begin(0), Serve(Claim(0, 0)), Receive(0), Serve(Push(0, 0)), GiveUp(0), Serve(Push(0, 1));
    RunStep(calls, [], w0, s1);
    RunStep(calls, [] + [s1], w1, s2);
    RunStep(calls, [] + [s1] + [s2], w2, s3);
    RunStep(calls, [] + [s1] + [s2] + [s3], w3, s4);
    RunStep(calls, [] + [s1] + [s2] + [s3] + [s4], w4, s5);
    RunStep(calls, [] + [s1] + [s2] + [s3] + [s4] + [s5], w5, s6);
    assert Apply(calls, w5, s6).queue == [0, 0];
  }

  /** An RPUSH that fails without a network error is not retried: the key is taken and the event is in no queue. */
  lemma {:induction false} FailedPushLosesEvent()
    ensures exists calls: seq<Call>, steps: seq<Step> ::
              && Run(calls, steps).Some? && |calls| == 1 && Run(calls, steps).value.lost == {Push(0, 0)}
              && calls[0].key in Run(calls, steps).value.mutex
              && Run(calls, steps).value.phase == [Done] && Run(calls, steps).value.queue == []
  {
    var calls := [Call("k", PushEvent)];
    var w0 := Start(calls);
    var w1 := Apply(calls, w0, Begin(0));
    var w2 := Apply(calls, w1, Serve(Claim(0, 0)));
    var w3 := Apply(calls, w2, Receive(0));
    var s1, s2, s3, s4 := Begin(0), Serve(Claim(0, 0)), Receive(0), Fail(0);
    RunStep(calls, [], w0, s1);
    RunStep(calls, [] + [s1], w1, s2);
    RunStep(calls, [] + [s1] + [s2], w2, s3);
    RunStep(calls, [] + [s1] + [s2] + [s3], w3, s4);
    assert Apply(calls, w3, s4).phase == [Done];
  }

  /** An instance that crashes after it won the race loses the event: the other one finds the key taken. */
  lemma {:induction false} CrashLosesEvent()
    ensures exists calls: seq<Call>, steps: seq<Step> ::
              && Run(calls, steps).Some? && |calls| == 2 && calls[0].key == calls[1].key
              && Run(calls, steps).value.phase == [Crashed, Skipped] && Run(calls, steps).value.effects == []
              && Run(calls, steps).value.lost == {Claim(0, 0)}
  {
    var calls := [Call("k", WriteToSlack), Call("k", WriteToSlack)];
    var w0 := Start(calls);
    var w1 := Apply(calls, w0, Begin(0));
    var w2 := Apply(calls, w1, Serve(Claim(0, 0)));
    var w3 := Apply(calls, w2, Crash(0));
    var w4 := Apply(calls, w3, Begin(1));
    var w5 := Apply(calls, w4, Serve(Claim(1, 0)));
    var s1, s2, s3, s4, s5, s6 := Begin(0), Serve(Claim(0, 0)), Crash(0), Begin(1), Serve(Claim(1, 0)), Receive(1);
    RunStep(calls, [], w0, s1);
    RunStep(calls, [] + [s1], w1, s2);
    RunStep(calls, [] + [s1] + [s2], w2, s3);
    RunStep(calls, [] + [s1] + [s2] + [s3], w3, s4);
    RunStep(calls, [] + [s1] + [s2] + [s3] + [s4], w4, s5);
    RunStep(calls, [] + [s1] + [s2] + [s3] + [s4] + [s5], w5, s6);
    assert Apply(calls, w5, s6).phase == [Crashed, Skipped];
  }

  // Progress --------------------------------------------------------------------------

  function Weight(p: Phase): nat {
    match p
    case Idle => 5
    case Claiming(_) => 3
    case Pushing(_) => 1
    case _ => 0
  }

  function Weights(ps: seq<Phase>): nat {
    if ps == [] then 0 else Weight(ps[0]) + Weights(ps[1..])
  }

  lemma {:induction false} WeightsUpdate(ps: seq<Phase>, c: nat, p: Phase)
    requires c < |ps|
    ensures Weights(ps[c := p]) == Weights(ps) - Weight(ps[c]) + Weight(p)
  {
    if c > 0 {
      assert ps[c := p][1..] == ps[1..][c - 1 := p];
      WeightsUpdate(ps[1..], c - 1, p);
    } else {
      assert ps[c := p][1..] == ps[1..];
    }
  }

  function Work(w: World): nat {
    Weights(w.phase) + |w.pending|
  }

  lemma {:induction false} CallNotStuck(calls: seq<Call>, w: World, c: nat) returns (s: Step)
    requires Requests(calls, w) && Calm(calls, w) && c < |calls| && !Ended(w.phase[c])
    ensures Smooth(s) && Enabled(calls, w, s)
  {
    if w.phase[c].Idle? {
      s := Begin(c);
    } else if Waiting(w, c).value in w.pending {
      s := Serve(Waiting(w, c).value);
    } else {
      s := Receive(c);
    }
  }

  /** A run without failures never gets stuck before every call has ended. */
  lemma {:induction false} NotStuck(calls: seq<Call>, steps: seq<Step>)
    requires Run(calls, steps).Some? && (forall s | s in steps :: Smooth(s)) && !AllEnded(Run(calls, steps).value)
    ensures exists s :: Smooth(s) && Enabled(calls, Run(calls, steps).value, s)
  {
    CalmRun(calls, steps);
    InvRun(calls, steps);
    var w := Run(calls, steps).value;
    var c: nat :| c < |calls| && !Ended(w.phase[c]);
    var s := CallNotStuck(calls, w, c);
  }

  /** Nor does it go on for ever: every step of it lowers the work left, at first five for each call. */
  lemma {:induction false} WorkFalls(calls: seq<Call>, w: World, s: Step)
    requires |w.phase| == |calls| && Enabled(calls, w, s) && Smooth(s)
    ensures Work(Apply(calls, w, s)) < Work(w)
  {
    var w' := Apply(calls, w, s);
    if !s.Serve? {
      WeightsUpdate(w.phase, s.call, w'.phase[s.call]);
      assert w'.pending == w.pending || exists req :: w'.pending == w.pending + {req};
    }
  }
}
