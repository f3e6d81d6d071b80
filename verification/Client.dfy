/** cmd/wgxdp/main.go: the polling loop of `wgxdp join`, and its product with the server. */
module Client {
  import opened Wrappers
  import opened NetIP
  import opened Subnets
  import opened Tables
  import opened Handlers
  import opened Races
  import opened Polling

  /** What comes back from POST /device/token: nothing decodable, or the two fields that are read. */
  datatype Reply = NoReply | Reply(accessToken: string, error: string)

  /** The errors of pollToken. */
  datatype Failure = NoAnswer | WasDenied | HasExpired | Unexpected(error: string)

  /** pollToken's three results. */
  datatype PollResult = PollResult(token: string, done: bool, error: Option<Failure>)

  function PollToken(reply: Reply): PollResult {
    match reply
    case NoReply => PollResult("", false, Some(NoAnswer))
    case Reply(token, error) =>
      if error == "authorization_pending" then PollResult("", false, None)
      else if error == "access_denied" then PollResult("", true, Some(WasDenied))
      else if error == "expired_token" then PollResult("", true, Some(HasExpired))
      else if error == "" then PollResult(token, true, None)
      else PollResult("", false, Some(Unexpected(error)))
  }

  datatype Outcome = JoinWith(token: string) | GaveUp(why: Failure) | TimedOut

  predicate StillPending(reply: Reply) { reply.Reply? && reply.error == "authorization_pending" }

  /** The clock at the k-th test of the loop's condition; each turn takes the interval and some more. */
  function Clock(interval: nat, extra: nat -> nat, k: nat): nat {
    if k == 0 then 0 else Clock(interval, extra, k - 1) + interval + extra(k - 1)
  }

  lemma {:induction false} ClockAtLeast(interval: nat, extra: nat -> nat, k: nat)
    ensures Clock(interval, extra, k) >= interval * k
  {
    if k == 0 {
    } else {
      ClockAtLeast(interval, extra, k - 1);
      assert interval * k == interval * (k - 1) + interval;
    }
  }

  /** What the last reply must lead to, unless it is pending. */
  ghost predicate Concludes(reply: Reply, outcome: Outcome) {
    && (reply == NoReply ==> outcome == GaveUp(NoAnswer))
    && (reply.Reply? && reply.error == "" ==>
         outcome == if reply.accessToken == "" then TimedOut else JoinWith(reply.accessToken))
    && (reply.Reply? && reply.error == "access_denied" ==> outcome == GaveUp(WasDenied))
    && (reply.Reply? && reply.error == "expired_token" ==> outcome == GaveUp(HasExpired))
    && (reply.Reply? && reply.error !in {"", "authorization_pending", "access_denied", "expired_token"} ==>
         outcome == GaveUp(Unexpected(reply.error)))
  }

  /** What the loop relies on: a poll either is pending, or failed, or is done. */
  lemma Classify(reply: Reply)
    ensures var p := PollToken(reply);
            && (StillPending(reply) <==> p.error.None? && !p.done)
            && (p.error.Some? ==> Concludes(reply, GaveUp(p.error.value)))
            && (p.error.None? && p.done ==> Concludes(reply, if p.token == "" then TimedOut else JoinWith(p.token)))
  {
  }

  /** ceil(expiresIn / interval) */
  function MaxPolls(interval: nat, expiresIn: nat): nat
    requires interval > 0
  {
    (expiresIn + interval - 1) / interval
  }

  /**
    At most ceil(expiresIn / interval) polls are made; the loop ends with the first reply that is
    not pending, or at the first test of the clock at or after the deadline.
   */
  ghost predicate Polled(
    interval: nat, expiresIn: nat, extra: nat -> nat, reply: nat -> Reply, outcome: Outcome, polls: nat)
    requires interval > 0
  {
    && polls <= MaxPolls(interval, expiresIn)
    && (polls > 0 ==> Clock(interval, extra, polls - 1) < expiresIn)
    && (forall k :: 0 <= k < polls - 1 ==> StillPending(reply(k)))
    && (polls == 0 || StillPending(reply(polls - 1)) ==>
         outcome == TimedOut && Clock(interval, extra, polls) >= expiresIn)
    && (polls > 0 && !StillPending(reply(polls - 1)) ==> Concludes(reply(polls - 1), outcome))
  }

  /** runJoin, from the device-code response up to the join request. */
  method RunJoin(interval: nat, expiresIn: nat, extra: nat -> nat, reply: nat -> Reply)
    returns (outcome: Outcome, polls: nat)
    requires interval > 0
    ensures Polled(interval, expiresIn, extra, reply, outcome, polls)
  {
    hide PollToken, StillPending, Concludes, MaxPolls;
    var accessToken := "";
    var now := 0;
    polls := 0;
    while now < expiresIn
      invariant now == Clock(interval, extra, polls)
      invariant polls > 0 ==> Clock(interval, extra, polls - 1) < expiresIn
      invariant forall k :: 0 <= k < polls ==> StillPending(reply(k))
      invariant accessToken == ""
      decreases expiresIn - now
    {
      now := now + interval + extra(polls);
      var p := PollToken(reply(polls));
      Classify(reply(polls));
      polls := polls + 1;
      if p.error.Some? {
        FewPolls(interval, expiresIn, extra, polls);
        return GaveUp(p.error.value), polls;
      }
      if p.done {
        accessToken := p.token;
        break;
      }
    }
    FewPolls(interval, expiresIn, extra, polls);
    outcome := if accessToken == "" then TimedOut else JoinWith(accessToken);
  }

  lemma FewPolls(interval: nat, expiresIn: nat, extra: nat -> nat, polls: nat)
    requires interval > 0 && (polls == 0 || Clock(interval, extra, polls - 1) < expiresIn)
    ensures polls <= MaxPolls(interval, expiresIn)
  {
    if polls > 0 {
      ClockAtLeast(interval, extra, polls - 1);
      CeilAtLeast(polls, expiresIn, interval);
    }
  }

  lemma CeilAtLeast(n: nat, e: nat, d: nat)
    requires d > 0 && n > 0 && d * (n - 1) < e
    ensures n <= (e + d - 1) / d
  {
    var q := (e + d - 1) / d;
    assert e + d - 1 < d * q + d;
    if q < n {
      TimesMonotone(d, q, n - 1);
    }
  }

  lemma TimesMonotone(d: nat, a: nat, b: nat)
    requires a <= b
    ensures d * a <= d * b
  {
  }

  // ----- Client and server together -----

  /** The JSON that DeviceTokenHandler writes for each of its responses. */
  function ReplyOf(r: Response): Reply {
    match r
    case TokenPending => Reply("", "authorization_pending")
    case TokenDenied => Reply("", "access_denied")
    case TokenExpired => Reply("", "expired_token")
    case TokenApproved(token) => Reply(token, "")
    case _ => Reply("", "server_error")
  }

  /** In world i the code has been approved with the token, and has not been denied. */
  ghost predicate ApprovedWith(worlds: seq<World>, i: nat, dc: string, token: string) {
    && i < |worlds| && dc in worlds[i].log.approved && worlds[i].log.approved[dc] == token
    && dc !in worlds[i].log.denied
  }

  /** A client goes on to /join only after a poll that was answered with the token. */
  lemma OneAnswer(env: Env, c: Cidr, worlds: seq<World>, moves: seq<Move>, dc: string, x: Exchange, token: string)
    requires Behaviour(env, c, worlds, moves) && worlds[0] == START
    requires Exchanged(worlds, dc, x)
    requires !StillPending(ReplyOf(x.response)) && Concludes(ReplyOf(x.response), JoinWith(token))
    ensures exists i :: x.begin <= i <= x.end && ApprovedWith(worlds, i, dc, token)
  {
    hide Behaviour, Exchanged, Answer;
    ExchangeIsPoll(env, c, worlds, moves, dc, x);
    var p := PollOf(worlds, dc, x);
    assert x.response == TokenApproved(token);
    AnsweredTokenIsApproved(env, c, worlds, moves, dc, p, token);
    assert ApprovedWith(worlds, p.read, dc, token);
  }

  /** The k-th reply is that of the k-th exchange with the server, or none came back. */
  ghost predicate Answered(worlds: seq<World>, dc: string, xs: seq<Exchange>, reply: nat -> Reply) {
    forall k :: 0 <= k < |xs| ==>
      Exchanged(worlds, dc, xs[k]) && (reply(k) == ReplyOf(xs[k].response) || reply(k) == NoReply)
  }

  /** With the server's own constants, a client polls at most 120 times. */
  lemma ServerConstants()
    ensures MaxPolls(DEVICE_CODE_POLL_INTERVAL, DEVICE_CODE_EXPIRY) == 120
  {
  }

  /**
    The product of client and server: whatever else happens on the server, a client that follows
    the loop of RunJoin with the server's own constants and goes on to /join with a token has made
    at most 120 polls, was told "pending" by all but the last, and has the token with which its own
    device code was approved during the last poll or before; that code was not denied.
   */
  lemma JoinsWithOwnToken(
    env: Env, c: Cidr, worlds: seq<World>, moves: seq<Move>, dc: string, xs: seq<Exchange>,
    extra: nat -> nat, reply: nat -> Reply, token: string)
    requires Behaviour(env, c, worlds, moves) && worlds[0] == START && Answered(worlds, dc, xs, reply)
    requires Polled(DEVICE_CODE_POLL_INTERVAL, DEVICE_CODE_EXPIRY, extra, reply, JoinWith(token), |xs|)
    ensures 0 < |xs| <= 120 && token != ""
    ensures forall k :: 0 <= k < |xs| - 1 ==> xs[k].response == TokenPending
    ensures exists i: nat :: i <= xs[|xs| - 1].end && ApprovedWith(worlds, i, dc, token)
  {
    hide Behaviour, Exchanged, ApprovedWith;
    ServerConstants();
    OneAnswer(env, c, worlds, moves, dc, xs[|xs| - 1], token);
  }

  /** The client's end, by the history of its code. */
  ghost predicate EndsAs(worlds: seq<World>, dc: string, p: PollAt, outcome: Outcome)
    requires p.read < |worlds| && p.answered < |worlds|
  {
    var codes, log := worlds[p.read].sys.db.codes, worlds[p.read].log;
    if dc !in codes || codes[dc].expiresAt < worlds[p.answered].now then outcome == GaveUp(HasExpired)
    else if dc in log.denied then outcome == GaveUp(WasDenied)
    else if dc in log.approved && log.approved[dc] != "" then outcome == JoinWith(log.approved[dc])
    else outcome == TimedOut
  }

  lemma LogIsConsistent(env: Env, c: Cidr, worlds: seq<World>, moves: seq<Move>, i: nat, dc: string)
    requires Behaviour(env, c, worlds, moves) && worlds[0] == START && i < |worlds|
    ensures !(dc in worlds[i].log.approved && dc in worlds[i].log.denied)
  {
    hide Behaviour, ConsumedOk, PeersOk;
    EveryWorldIsOk(env, c, worlds, moves, i);
  }

  lemma EndOfPoll(worlds: seq<World>, dc: string, p: PollAt, r: Response, outcome: Outcome)
    requires p.read < |worlds| && p.answered < |worlds| && TellsHistory(worlds, dc, p, r)
    requires !(dc in worlds[p.read].log.approved && dc in worlds[p.read].log.denied)
    requires if StillPending(ReplyOf(r)) then outcome == TimedOut else Concludes(ReplyOf(r), outcome)
    ensures EndsAs(worlds, dc, p, outcome)
  {
    var codes, log := worlds[p.read].sys.db.codes, worlds[p.read].log;
    if dc in codes && worlds[p.answered].now <= codes[dc].expiresAt && dc in log.approved {
      assert r == TokenApproved(log.approved[dc]);
    }
  }

  /**
    The other half: when the last reply is delivered, the client ends exactly as the history of its
    code says at the moment when the server read the row: it joins with the token of the approval, it
    is told of the denial, or it runs into the deadline if nothing had been decided; and it is told
    that the code has expired if the server found it gone or past its time.
   */
  lemma ClientLearnsDecision(
    env: Env, c: Cidr, worlds: seq<World>, moves: seq<Move>, dc: string, xs: seq<Exchange>,
    extra: nat -> nat, reply: nat -> Reply, outcome: Outcome)
    requires Behaviour(env, c, worlds, moves) && worlds[0] == START && Answered(worlds, dc, xs, reply)
    requires Polled(DEVICE_CODE_POLL_INTERVAL, DEVICE_CODE_EXPIRY, extra, reply, outcome, |xs|)
    requires xs != [] && reply(|xs| - 1) == ReplyOf(xs[|xs| - 1].response)
    ensures exists p :: Within(worlds, dc, xs[|xs| - 1], p) && EndsAs(worlds, dc, p, outcome)
  {
    hide Behaviour, Exchanged, Answer, TellsHistory, EndsAs, Clock, MaxPolls, Concludes, ReplyOf;
    var x := xs[|xs| - 1];
    ResponseTellsHistory(env, c, worlds, moves, dc, x);
    var p :| Within(worlds, dc, x, p) && TellsHistory(worlds, dc, p, x.response);
    LogIsConsistent(env, c, worlds, moves, p.read, dc);
    EndOfPoll(worlds, dc, p, x.response, outcome);
  }
}
