/**
 The browser callback server: concurrent request handlers that share a sender which can be taken once.
 */
module Callback {
  import opened Text

  datatype Method = Post | Options | Other

  /** The body as far as it could be read and decoded. */
  datatype Body = Unreadable | Malformed | Payload(token: string, code: string)

  datatype Request = Request(path: string, origin: Option<string>, method_: Method, body: Body)

  datatype Config = Config(allowedOrigin: Option<string>, expectedCode: string)

  datatype Status = NotFound | Forbidden | NoContent | MethodNotAllowed | BadRequest | Ok

  const CALLBACK_PATH := "/callback"

  /** What a handler has decided to do with the sender before it gets to the lock. */
  datatype Plan = Reply(status: Status) | Spend(status: Status) | Deliver(token: string)

  /** The handler's checks, in the order they are made. */
  function PlanFor(config: Config, r: Request): Plan {
    if r.path != CALLBACK_PATH then Reply(NotFound)
    else if config.allowedOrigin.Some? && r.origin != config.allowedOrigin then Spend(Forbidden)
    else if r.method_.Options? then Reply(NoContent)
    else if !r.method_.Post? then Reply(MethodNotAllowed)
    else if r.body.Unreadable? || r.body.Malformed? then Spend(BadRequest)
    else if r.body.token == "" || r.body.code == "" then Spend(BadRequest)
    else if r.body.code != config.expectedCode then Spend(Forbidden)
    else Deliver(r.body.token)
  }

  /** A request that may hand over its token. */
  predicate IsValid(config: Config, r: Request) {
    && r.path == CALLBACK_PATH
    && (config.allowedOrigin.Some? ==> r.origin == config.allowedOrigin)
    && r.method_.Post?
    && r.body.Payload? && r.body.token != "" && r.body.code != "" && r.body.code == config.expectedCode
  }

  /** A request that leaves the sender alone: another path, or an accepted origin without a POST. */
  predicate IsHarmless(config: Config, r: Request) {
    r.path != CALLBACK_PATH
    || ((config.allowedOrigin.Some? ==> r.origin == config.allowedOrigin) && !r.method_.Post?)
  }

  // ---------------------------------------------------------------------------
  // Handlers as a state machine
  // ---------------------------------------------------------------------------

  /**
   Where a handler is: it has not looked at its request yet, it has decided and is about to take the
   sender, it holds the sender and has not sent yet, or it has answered.
   */
  datatype Phase = Arrived | Decided(plan: Plan) | Holding(token: string) | Answered(status: Status)

  /** The shared sender, what went through it, and every handler. */
  datatype Server = Server(sender: bool, delivered: seq<string>, handlers: seq<Phase>)

  function Start(n: nat): Server {
    Server(true, [], seq(n, _ => Arrived))
  }

  /** One step of handler `i`; a handler that has answered takes none. */
  function Step(config: Config, requests: seq<Request>, s: Server, i: nat): Server
    requires |s.handlers| == |requests| && i < |requests|
  {
    match s.handlers[i]
    case Arrived =>
      var plan := PlanFor(config, requests[i]);
      s.(handlers := s.handlers[i := if plan.Reply? then Answered(plan.status) else Decided(plan)])
    case Decided(plan) =>
      // The lock makes taking the sender one step.
      var next := if !plan.Deliver? then Answered(plan.status)
                  else if s.sender then Holding(plan.token)
                  else Answered(Ok);
      s.(sender := false, handlers := s.handlers[i := next])
    case Holding(token) =>
      s.(delivered := s.delivered + [token], handlers := s.handlers[i := Answered(Ok)])
    case Answered(_) => s
  }

  /** A schedule names the handler that moves next. */
  predicate IsSchedule(schedule: seq<nat>, n: nat) {
    forall k | 0 <= k < |schedule| :: schedule[k] < n
  }

  /** The server after a schedule. */
  function Run(config: Config, requests: seq<Request>, schedule: seq<nat>): (s: Server)
    requires IsSchedule(schedule, |requests|)
    ensures |s.handlers| == |requests|
  {
    if schedule == [] then Start(|requests|) else
      Step(config, requests, Run(config, requests, schedule[..|schedule| - 1]), schedule[|schedule| - 1])
  }

  /** The step takes the sender: the handler had decided, and not on a mere reply. */
  predicate Takes(s: Server, i: nat) {
    i < |s.handlers| && s.handlers[i].Decided?
  }

  /** The first handler of a run to take the sender. */
  ghost function FirstTaker(config: Config, requests: seq<Request>, schedule: seq<nat>): (first: Option<nat>)
    requires IsSchedule(schedule, |requests|)
    ensures first.Some? ==> first.value < |requests|
  {
    if schedule == [] then None else
      var init, last := schedule[..|schedule| - 1], schedule[|schedule| - 1];
      var earlier := FirstTaker(config, requests, init);
      if earlier.Some? then earlier
      else if Takes(Run(config, requests, init), last) then Some(last)
      else None
  }

  // ---------------------------------------------------------------------------
  // Over every interleaving
  // ---------------------------------------------------------------------------

  /** What a handler's phase says about its request. */
  ghost predicate PhaseFits(config: Config, r: Request, phase: Phase) {
    match phase
    case Arrived => true
    case Decided(plan) => plan == PlanFor(config, r) && !plan.Reply?
    case Holding(token) => PlanFor(config, r) == Deliver(token)
    case Answered(status) => status == Answer(PlanFor(config, r))
  }

  /**
   The invariant: the sender is there until the first taker; only that handler can hold it; and its
   token has gone through if and only if it was valid and has moved on.
   */
  ghost predicate Inv(config: Config, requests: seq<Request>, s: Server, first: Option<nat>) {
    && |s.handlers| == |requests|
    && (forall i | 0 <= i < |requests| :: PhaseFits(config, requests[i], s.handlers[i]))
    && (s.sender <==> first.None?)
    && (first.Some? ==> first.value < |requests| && !PlanFor(config, requests[first.value]).Reply?)
    && (forall i | 0 <= i < |requests| && s.handlers[i].Holding? :: first == Some(i))
    && (first.Some? ==> s.handlers[first.value].Holding? || s.handlers[first.value].Answered?)
    && s.delivered == if first.Some? && s.handlers[first.value].Answered? then Handed(config, requests[first.value]) else []
  }

  /** What a first taker hands over in the end. */
  ghost function Handed(config: Config, r: Request): seq<string> {
    if IsValid(config, r) then [r.body.token] else []
  }

  lemma PlanIsValidity(config: Config, r: Request)
    ensures PlanFor(config, r).Deliver? <==> IsValid(config, r)
    ensures PlanFor(config, r).Deliver? ==> PlanFor(config, r).token == r.body.token
    ensures PlanFor(config, r).Reply? <==> IsHarmless(config, r)
  {
  }

  /** The origin is the required one, if one is required. */
  predicate OriginAccepted(config: Config, r: Request) {
    config.allowedOrigin == None || r.origin == config.allowedOrigin
  }

  /** A POST to the right place from an accepted origin. */
  predicate IsSubmission(config: Config, r: Request) {
    r.path == "/callback" && OriginAccepted(config, r) && r.method_ == Post
  }

  /** Which answer a request gets, whoever comes first. */
  function Answer(plan: Plan): Status {
    if plan.Deliver? then Ok else plan.status
  }

  /** The answers, each with the requests that get it. */
  lemma AnswersExactly(config: Config, r: Request)
    ensures var status := Answer(PlanFor(config, r));
            && (status == NotFound <==> r.path != "/callback")
            && (status == NoContent <==> r.path == "/callback" && OriginAccepted(config, r) && r.method_ == Options)
            && (status == MethodNotAllowed <==> r.path == "/callback" && OriginAccepted(config, r) && r.method_ == Other)
            && (status == BadRequest <==>
                  IsSubmission(config, r) && !(r.body.Payload? && r.body.token != "" && r.body.code != ""))
            && (status == Forbidden <==>
                  (r.path == "/callback" && !OriginAccepted(config, r))
                  || (IsSubmission(config, r) && r.body.Payload? && r.body.token != "" && r.body.code != ""
                      && r.body.code != config.expectedCode))
            && (status == Ok <==> IsValid(config, r))
  {
  }

  lemma StepKeepsInv(config: Config, requests: seq<Request>, s: Server, first: Option<nat>, i: nat)
    requires Inv(config, requests, s, first) && i < |requests|
    ensures Inv(config, requests, Step(config, requests, s, i),
                if first.None? && Takes(s, i) then Some(i) else first)
  {
    PlanIsValidity(config, requests[i]);
  }

  lemma {:induction false} RunKeepsInv(config: Config, requests: seq<Request>, schedule: seq<nat>)
    requires IsSchedule(schedule, |requests|)
    ensures Inv(config, requests, Run(config, requests, schedule), FirstTaker(config, requests, schedule))
  {
    if schedule != [] {
      var init, last := schedule[..|schedule| - 1], schedule[|schedule| - 1];
      RunKeepsInv(config, requests, init);
      StepKeepsInv(config, requests, Run(config, requests, init), FirstTaker(config, requests, init), last);
    }
  }

  ghost predicate AllAnswered(s: Server) {
    forall i | 0 <= i < |s.handlers| :: s.handlers[i].Answered?
  }

  /**
   Over every interleaving: at most one token is ever delivered, and only one of a valid request that
   took the sender first; once all handlers have answered, it was delivered exactly if there was such
   a request.  A harmless request is never the first taker.  Each handler answers by its own request
   alone, whoever came first.
   */
  lemma DeliveredOnceAndValid(config: Config, requests: seq<Request>, schedule: seq<nat>)
    requires IsSchedule(schedule, |requests|)
    ensures var s, first := Run(config, requests, schedule), FirstTaker(config, requests, schedule);
            && |s.delivered| <= 1
            && (s.delivered != [] ==>
                  first.Some? && IsValid(config, requests[first.value]) && s.delivered == [requests[first.value].body.token])
            && (AllAnswered(s) ==>
                  (s.delivered != [] <==> first.Some? && IsValid(config, requests[first.value])))
            && (first.Some? ==> !IsHarmless(config, requests[first.value]))
            && (s.sender <==> first.None?)
            && (forall i | 0 <= i < |requests| && s.handlers[i].Answered? ::
                  s.handlers[i].status == Answer(PlanFor(config, requests[i])))
  {
    RunKeepsInv(config, requests, schedule);
    var first := FirstTaker(config, requests, schedule);
    if first.Some? {
      PlanIsValidity(config, requests[first.value]);
    }
  }

  /** If every request is harmless the sender survives the whole run. */
  lemma HarmlessRequestsKeepSender(config: Config, requests: seq<Request>, schedule: seq<nat>)
    requires IsSchedule(schedule, |requests|)
    requires forall i | 0 <= i < |requests| :: IsHarmless(config, requests[i])
    ensures Run(config, requests, schedule).sender
  {
    DeliveredOnceAndValid(config, requests, schedule);
    RunKeepsInv(config, requests, schedule);
  }
}
