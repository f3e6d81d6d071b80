/** What one client sees that polls /device/token for one device code. */
module Polling {
  import opened Wrappers
  import opened NetIP
  import opened Subnets
  import opened Tables
  import opened Kernel
  import opened Handlers
  import opened Runs
  import opened Races

  // ----- How the row of an issued code changes -----

  /** What may become of a row: nothing, unless it is pending; and a row that has gone stays away. */
  predicate Later(row: Option<CodeRow>, next: Option<CodeRow>) {
    match (row, next)
    case (_, None) => true
    case (None, Some(_)) => false
    case (Some(r), Some(n)) => n.expiresAt == r.expiresAt && (n == r || r.status == Pending)
  }

  lemma LaterTransitive(a: Option<CodeRow>, b: Option<CodeRow>, d: Option<CodeRow>)
    requires Later(a, b) && Later(b, d)
    ensures Later(a, d)
  {
  }

  lemma IssuedRowStep(env: Env, c: Cidr, w: World, move: Move, v: World, dc: string)
    requires Next(env, c, w, move, v) && dc in w.log.deviceCodes
    ensures Later(CodeByDevice(w.sys.db, dc), CodeByDevice(v.sys.db, dc)) && w.now <= v.now && dc in v.log.deviceCodes
  {
    if move.Proceed? {
      var th := w.threads[move.tid];
      OnlyTheseSteps(env, c, w.now, w.sys, th);
      IssuedRowAfter(w.log, w.sys.db, move.tid, th, dc);
      hide Step, Record, CodesAfter, PeersAfter, Fresh;
    } else {
      hide Step, Enumerates, RestorePeers, RestoreRules;
    }
  }

  lemma IssuedRowAfter(log: Log, t: Tables, tid: nat, th: Thread, dc: string)
    requires Fresh(log, th) && dc in log.deviceCodes
    ensures Later(CodeByDevice(t, dc), if dc in CodesAfter(t, th) then Some(CodesAfter(t, th)[dc]) else None)
    ensures dc in Record(log, t, tid, th).deviceCodes
  {
  }

  lemma {:induction false} IssuedRow(
    env: Env, c: Cidr, worlds: seq<World>, moves: seq<Move>, i: nat, j: nat, dc: string)
    requires Behaviour(env, c, worlds, moves) && i <= j < |worlds| && dc in worlds[i].log.deviceCodes
    ensures Later(CodeByDevice(worlds[i].sys.db, dc), CodeByDevice(worlds[j].sys.db, dc))
    ensures worlds[i].now <= worlds[j].now && dc in worlds[j].log.deviceCodes
    decreases j
  {
    hide Next, Later, CodeByDevice;
    if i == j {
      LaterReflexive(CodeByDevice(worlds[i].sys.db, dc));
    } else {
      IssuedRow(env, c, worlds, moves, i, j - 1, dc);
      Moved(env, c, worlds, moves, j - 1);
      IssuedRowStep(env, c, worlds[j - 1], moves[j - 1], worlds[j], dc);
      LaterTransitive(CodeByDevice(worlds[i].sys.db, dc), CodeByDevice(worlds[j - 1].sys.db, dc),
                      CodeByDevice(worlds[j].sys.db, dc));
    }
  }

  lemma LaterReflexive(row: Option<CodeRow>)
    ensures Later(row, row)
  {
  }

  // ----- One poll -----

  /** A poll reads the row in world `read` and the clock in world `answered`. */
  datatype PollAt = PollAt(read: nat, answered: nat)

  ghost function Answer(worlds: seq<World>, dc: string, p: PollAt): Response
    requires p.read < |worlds| && p.answered < |worlds|
  {
    TokenResponse(CodeByDevice(worlds[p.read].sys.db, dc), worlds[p.answered].now)
  }

  /** In world i the handler still has its request, or it has read the row in some world from a on. */
  ghost predicate Underway(worlds: seq<World>, tid: nat, dc: string, a: nat, i: nat)
    requires a <= i < |worlds|
  {
    tid in worlds[i].threads ==>
      match worlds[i].threads[tid]
      case Started(req) => req == Poll(dc)
      case PollRead(row) => exists r :: a <= r <= i && row == CodeByDevice(worlds[r].sys.db, dc)
      case Done(response) => exists r, s :: a <= r <= s <= i && response == Answer(worlds, dc, PollAt(r, s))
      case _ => false
  }

  /** Whatever runs in between, the response comes from a row and a clock read one after the other. */
  lemma {:induction false} PollIsBracketed(
    env: Env, c: Cidr, worlds: seq<World>, moves: seq<Move>, tid: nat, dc: string, a: nat, i: nat)
    requires Behaviour(env, c, worlds, moves) && a <= i < |worlds|
    requires tid in worlds[a].threads && worlds[a].threads[tid] == Started(Poll(dc)) && tid < worlds[a].nextThread
    ensures Underway(worlds, tid, dc, a, i) && tid < worlds[i].nextThread
    decreases i
  {
    if a == i {
    } else {
      hide Next, Underway;
      PollIsBracketed(env, c, worlds, moves, tid, dc, a, i - 1);
      Moved(env, c, worlds, moves, i - 1);
      PollStep(env, c, worlds, moves[i - 1], tid, dc, a, i);
    }
  }

  lemma PollStep(env: Env, c: Cidr, worlds: seq<World>, move: Move, tid: nat, dc: string, a: nat, i: nat)
    requires a < i < |worlds| && Next(env, c, worlds[i - 1], move, worlds[i])
    requires Underway(worlds, tid, dc, a, i - 1) && tid < worlds[i - 1].nextThread
    ensures Underway(worlds, tid, dc, a, i) && tid < worlds[i].nextThread
  {
    var w, v := worlds[i - 1], worlds[i];
    if move == Proceed(tid) {
      PollThread(env, c, w.now, w.sys, w.threads[tid], dc);
      var th := w.threads[tid];
      hide Step, Record, CodeByDevice, TokenResponse, Fresh;
      if th.Started? {
        assert v.threads[tid] == PollRead(CodeByDevice(worlds[i - 1].sys.db, dc));
      } else if th.PollRead? {
        var r :| a <= r <= i - 1 && th.row == CodeByDevice(worlds[r].sys.db, dc);
        assert v.threads[tid] == Done(Answer(worlds, dc, PollAt(r, i - 1)));
      }
    } else {
      hide Step, Record, Restore, CodeByDevice, Fresh, Enumerates;
      assert tid in v.threads ==> tid in w.threads && v.threads[tid] == w.threads[tid];
    }
  }

  lemma PollThread(env: Env, c: Cidr, now: int, s: Sys, th: Thread, dc: string)
    ensures th == Started(Poll(dc)) ==> Step(env, c, now, s, th).1 == PollRead(CodeByDevice(s.db, dc))
    ensures th.PollRead? ==> Step(env, c, now, s, th).1 == Done(TokenResponse(th.row, now))
  {
  }

  // ----- The responses of successive polls -----

  /** Polls one after the other: each reads its row after the previous one has been answered. */
  ghost predicate Successive(worlds: seq<World>, polls: seq<PollAt>) {
    && (forall k :: 0 <= k < |polls| ==> polls[k].read <= polls[k].answered < |worlds|)
    && (forall k, l :: 0 <= k < l < |polls| ==> polls[k].answered <= polls[l].read)
  }

  /** The order in which responses can follow each other. */
  predicate Follows(r: Response, next: Response) {
    match r
    case TokenPending => next.TokenPending? || next.TokenDenied? || next.TokenApproved? || next.TokenExpired?
    case TokenDenied => next.TokenDenied? || next.TokenExpired?
    case TokenApproved(_) => next == r || next.TokenExpired?
    case TokenExpired => next.TokenExpired?
    case _ => false
  }

  lemma LaterAnswerFollows(row: Option<CodeRow>, now: int, next: Option<CodeRow>, later: int)
    requires Later(row, next) && now <= later
    ensures Follows(TokenResponse(row, now), TokenResponse(next, later))
  {
  }

  predicate Decision(r: Response) { r.TokenDenied? || r.TokenApproved? }

  /** pending*, then one decision repeated (denied, or approved with one token), then expired*. */
  ghost predicate InLanguage(rs: seq<Response>) {
    exists a: nat, b: nat :: Splits(rs, a, b)
  }

  ghost predicate Splits(rs: seq<Response>, a: nat, b: nat) {
    && a <= b <= |rs|
    && (forall k :: 0 <= k < a ==> rs[k] == TokenPending)
    && (forall k :: a <= k < b ==> Decision(rs[k]) && rs[k] == rs[a])
    && (forall k :: b <= k < |rs| ==> rs[k] == TokenExpired)
  }

  predicate IsTokenAnswer(r: Response) { r.TokenPending? || r.TokenExpired? || Decision(r) }

  lemma {:induction false} OrderedIsInLanguage(rs: seq<Response>)
    requires forall k :: 0 <= k < |rs| ==> IsTokenAnswer(rs[k])
    requires forall k, l :: 0 <= k < l < |rs| ==> Follows(rs[k], rs[l])
    ensures InLanguage(rs)
  {
    if rs == [] {
      assert Splits(rs, 0, 0);
    } else {
      var n := |rs| - 1;
      var before := rs[..n];
      OrderedIsInLanguage(before);
      var a: nat, b: nat :| Splits(before, a, b);
      forall k | 0 <= k < n ensures before[k] == rs[k] && Follows(rs[k], rs[n]) {
      }
      if rs[n].TokenPending? {
        assert Splits(rs, |rs|, |rs|);
      } else if rs[n].TokenExpired? {
        assert Splits(rs, a, b);
      } else if a == b {
        assert Splits(rs, n, |rs|);
      } else {
        assert Splits(rs, a, |rs|);
      }
    }
  }

  ghost function Answers(worlds: seq<World>, dc: string, polls: seq<PollAt>): (rs: seq<Response>)
    requires Successive(worlds, polls)
    ensures |rs| == |polls| && forall k :: 0 <= k < |polls| ==> rs[k] == Answer(worlds, dc, polls[k])
  {
    seq(|polls|, k requires 0 <= k < |polls| => Answer(worlds, dc, polls[k]))
  }

  /**
    Over every interleaving of polls, approvals, denials, consumptions, cleaner runs, clock ticks
    and crashes, the responses to one client's successive polls for an issued device code are
    pending*, then either denied* or approved* with one fixed token, then expired*.
   */
  lemma PollTraceLanguage(env: Env, c: Cidr, worlds: seq<World>, moves: seq<Move>, dc: string, polls: seq<PollAt>)
    requires Behaviour(env, c, worlds, moves) && Successive(worlds, polls)
    requires polls != [] ==> dc in worlds[polls[0].read].log.deviceCodes
    ensures InLanguage(Answers(worlds, dc, polls))
  {
    var rs := Answers(worlds, dc, polls);
    forall k | 0 <= k < |polls| ensures IsTokenAnswer(rs[k]) && dc in worlds[polls[k].read].log.deviceCodes {
      IssuedRow(env, c, worlds, moves, polls[0].read, polls[k].read, dc);
    }
    forall k, l | 0 <= k < l < |polls| ensures Follows(rs[k], rs[l]) {
      var p, q := polls[k], polls[l];
      IssuedRow(env, c, worlds, moves, p.read, q.read, dc);
      IssuedRow(env, c, worlds, moves, p.read, p.answered, dc);
      IssuedRow(env, c, worlds, moves, p.answered, q.answered, dc);
      LaterAnswerFollows(CodeByDevice(worlds[p.read].sys.db, dc), worlds[p.answered].now,
                         CodeByDevice(worlds[q.read].sys.db, dc), worlds[q.answered].now);
    }
    OrderedIsInLanguage(rs);
  }

  /** One request of the client: its handler, the world in which it starts and one in which it is done. */
  datatype Exchange = Exchange(tid: nat, begin: nat, end: nat, response: Response)

  ghost predicate Exchanged(worlds: seq<World>, dc: string, x: Exchange) {
    && x.begin <= x.end < |worlds|
    && x.tid in worlds[x.begin].threads && worlds[x.begin].threads[x.tid] == Started(Poll(dc))
    && x.tid in worlds[x.end].threads && worlds[x.end].threads[x.tid] == Done(x.response)
  }

  ghost predicate Within(worlds: seq<World>, dc: string, x: Exchange, p: PollAt) {
    x.begin <= p.read <= p.answered <= x.end < |worlds| && x.response == Answer(worlds, dc, p)
  }

  ghost function PollOf(worlds: seq<World>, dc: string, x: Exchange): (p: PollAt)
    requires exists p :: Within(worlds, dc, x, p)
    ensures Within(worlds, dc, x, p)
  {
    var p :| Within(worlds, dc, x, p); p
  }

  lemma ExchangeIsPoll(env: Env, c: Cidr, worlds: seq<World>, moves: seq<Move>, dc: string, x: Exchange)
    requires Behaviour(env, c, worlds, moves) && worlds[0] == START && Exchanged(worlds, dc, x)
    ensures exists p :: Within(worlds, dc, x, p)
  {
    EveryWorldIsOk(env, c, worlds, moves, x.begin);
    PollIsBracketed(env, c, worlds, moves, x.tid, dc, x.begin, x.end);
    hide Behaviour, CodesOk, ConsumedOk, PeersOk, Answer;
    var r, s :| x.begin <= r <= s <= x.end && x.response == Answer(worlds, dc, PollAt(r, s));
    assert Within(worlds, dc, x, PollAt(r, s));
  }

  /** The same for handlers as they run: a client that waits for each response before it polls again. */
  lemma ClientSeesLanguage(env: Env, c: Cidr, worlds: seq<World>, moves: seq<Move>, dc: string, xs: seq<Exchange>)
    requires Behaviour(env, c, worlds, moves) && worlds[0] == START
    requires forall k :: 0 <= k < |xs| ==> Exchanged(worlds, dc, xs[k])
    requires forall k, l :: 0 <= k < l < |xs| ==> xs[k].end <= xs[l].begin
    requires xs != [] ==> Exchanged(worlds, dc, xs[0]) && dc in worlds[xs[0].begin].log.deviceCodes
    ensures InLanguage(seq(|xs|, k requires 0 <= k < |xs| => xs[k].response))
  {
    hide Exchanged, InLanguage, Answer;
    forall k | 0 <= k < |xs| ensures exists p :: Within(worlds, dc, xs[k], p) {
      ExchangeIsPoll(env, c, worlds, moves, dc, xs[k]);
    }
    var polls := seq(|xs|, k requires 0 <= k < |xs| => PollOf(worlds, dc, xs[k]));
    assert forall k :: 0 <= k < |xs| ==> Within(worlds, dc, xs[k], polls[k]);
    if xs != [] {
      IssuedRow(env, c, worlds, moves, xs[0].begin, polls[0].read, dc);
    }
    hide Behaviour, Later;
    PollTraceLanguage(env, c, worlds, moves, dc, polls);
    assert Answers(worlds, dc, polls) == seq(|xs|, k requires 0 <= k < |xs| => xs[k].response);
  }

  // ----- Tokens and decisions -----

  /** A token that a poll returns is the one with which the polled code was approved; the code was not denied. */
  lemma AnsweredTokenIsApproved(
    env: Env, c: Cidr, worlds: seq<World>, moves: seq<Move>, dc: string, p: PollAt, token: string)
    requires Behaviour(env, c, worlds, moves) && worlds[0] == START
    requires p.read < |worlds| && p.answered < |worlds|
    requires Answer(worlds, dc, p) == TokenApproved(token)
    ensures var log := worlds[p.read].log; dc in log.approved && log.approved[dc] == token && dc !in log.denied
  {
    hide Behaviour, ConsumedOk, PeersOk;
    EveryWorldIsOk(env, c, worlds, moves, p.read);
    var w := worlds[p.read];
    assert dc in w.sys.db.codes && RowOk(w.log, dc, w.sys.db.codes[dc]);
  }

  /** What a response read at r and timed at a says about the history of the code. */
  ghost predicate TellsHistory(worlds: seq<World>, dc: string, p: PollAt, r: Response)
    requires p.read < |worlds| && p.answered < |worlds|
  {
    var codes, log := worlds[p.read].sys.db.codes, worlds[p.read].log;
    if dc in codes && worlds[p.answered].now <= codes[dc].expiresAt then
      && (r == TokenDenied <==> dc in log.denied)
      && (forall token :: r == TokenApproved(token) <==> dc in log.approved && log.approved[dc] == token)
      && (r == TokenPending <==> dc !in log.approved && dc !in log.denied)
    else r == TokenExpired
  }

  /**
    Over every interleaving, the response to a poll says exactly what had been decided about its code
    when the row was read: denied, approved with this token, or neither; and "expired" exactly if the
    code was gone by then, or its time had passed when the clock was read.
   */
  lemma ResponseTellsHistory(env: Env, c: Cidr, worlds: seq<World>, moves: seq<Move>, dc: string, x: Exchange)
    requires Behaviour(env, c, worlds, moves) && worlds[0] == START && Exchanged(worlds, dc, x)
    ensures exists p :: Within(worlds, dc, x, p) && TellsHistory(worlds, dc, p, x.response)
  {
    hide Behaviour, ConsumedOk, PeersOk, Exchanged;
    ExchangeIsPoll(env, c, worlds, moves, dc, x);
    var p := PollOf(worlds, dc, x);
    EveryWorldIsOk(env, c, worlds, moves, p.read);
    var w := worlds[p.read];
    if dc in w.sys.db.codes {
      assert RowOk(w.log, dc, w.sys.db.codes[dc]);
    }
  }
}
