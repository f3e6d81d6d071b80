/** What the answers to POST /device/verify say, alone and when other handlers run in between. */
module Decisions {
  import opened Wrappers
  import opened NetIP
  import opened Subnets
  import opened Tables
  import opened Kernel
  import opened Handlers
  import opened Runs
  import opened Races

  function DecidedRow(row: CodeRow, action: Action, token: string): CodeRow {
    match action
    case ApproveIt => row.(status := Approved, token := Some(token))
    case DenyIt => row.(status := Denied)
    case OtherAction => row
  }

  predicate IsPending(row: Option<CodeRow>) { row.Some? && row.value.status == Pending }

  // ----- Alone -----

  /** What the UPDATE does to the row of the user code. */
  lemma DecisionOnRow(t: Tables, userCode: string, action: Action, token: string)
    requires UniqueUserCodes(t.codes)
    ensures var before, (u, r) := CodeByUser(t, userCode), VerifyAct(t, userCode, action, token);
            if IsPending(before) then CodeByUser(u, userCode) == Some(DecidedRow(before.value, action, token))
            else u == t
    ensures var r := VerifyAct(t, userCode, action, token).1;
            && (r == VerifyApproved <==> action == ApproveIt && IsPending(CodeByUser(t, userCode)))
            && (r == VerifyDenied <==> action == DenyIt)
            && (r == ServerError <==> action == ApproveIt && !IsPending(CodeByUser(t, userCode)))
  {
    var u := VerifyAct(t, userCode, action, token).0;
    if d :| d in t.codes && t.codes[d].userCode == userCode {
      assert CodeByUser(t, userCode) == Some(t.codes[d]);
      assert u.codes.Keys == t.codes.Keys;
      if PendingFor(t.codes[d], userCode) {
        assert d in u.codes && u.codes[d] == DecidedRow(t.codes[d], action, token);
        assert forall e :: e in u.codes && u.codes[e].userCode == userCode ==> e == d;
      } else {
        assert forall e :: e in t.codes ==> !PendingFor(t.codes[e], userCode);
        assert u.codes == t.codes;
      }
    } else {
      assert forall e :: e in t.codes ==> !PendingFor(t.codes[e], userCode);
      assert u.codes == t.codes;
    }
  }

  /**
    When nothing runs in between, the answer is true: a code answered "denied" was pending and is
    denied, one answered "approved" was pending and is approved with the token, and otherwise nothing
    has changed.
   */
  lemma AnswerIsTrueAlone(env: Env, c: Cidr, now: int, s: Sys, userCode: string, action: Action, token: string)
    requires UniqueUserCodes(s.db.codes)
    ensures var (t, r) := Effect(env, c, now, s, Verify(userCode, action, token));
            var before, after := CodeByUser(s.db, userCode), CodeByUser(t.db, userCode);
            var decides := userCode != "" && !Expired(before, now) && IsPending(before);
            && (r == VerifyApproved <==> decides && action == ApproveIt)
            && (r == VerifyDenied <==> decides && action == DenyIt)
            && (if r == VerifyApproved || r == VerifyDenied then after == Some(DecidedRow(before.value, action, token))
                else t == s)
  {
    DecisionOnRow(s.db, userCode, action, token);
    hide UniqueUserCodes, CodeByUser, HasPending, Approve, Deny;
  }

  // ----- Interleaved -----

  /** In world k the handler is about to decide, and in world k + 1 it has decided and answers r. */
  ghost predicate DecidesAt(
    worlds: seq<World>, tid: nat, userCode: string, action: Action, token: string, r: Response, k: nat)
  {
    && k + 1 < |worlds| && tid in worlds[k].threads && tid in worlds[k + 1].threads
    && worlds[k].threads[tid] == VerifyActing(userCode, action, token) && worlds[k + 1].threads[tid] == Done(r)
    && VerifyAct(worlds[k].sys.db, userCode, action, token) == (worlds[k + 1].sys.db, r)
  }

  /** The answers that follow the UPDATE. */
  predicate IsVerdict(r: Response) { r == VerifyApproved || r == VerifyDenied || r == ServerError }

  ghost predicate Underway(
    worlds: seq<World>, tid: nat, userCode: string, action: Action, token: string, a: nat, i: nat)
    requires a <= i < |worlds|
  {
    tid in worlds[i].threads ==>
      match worlds[i].threads[tid]
      case Started(req) => req == Verify(userCode, action, token)
      case VerifyRead(uc, act, tok, _) => uc == userCode && act == action && tok == token
      case VerifyActing(uc, act, tok) => uc == userCode && act == action && tok == token
      case Done(r) =>
        IsVerdict(r) ==> exists k :: a <= k < i && DecidesAt(worlds, tid, userCode, action, token, r, k)
      case _ => false
  }

  lemma VerifyThread(env: Env, c: Cidr, now: int, s: Sys, th: Thread)
    ensures var (t, next) := Step(env, c, now, s, th);
            && (th.Started? && th.req.Verify? ==>
                 next == Done(BadRequest)
                 || (next.VerifyRead? && next.userCode == th.req.userCode && next.action == th.req.action
                     && next.token == th.req.token))
            && (th.VerifyRead? ==>
                 (next.Done? && !IsVerdict(next.response)) || next == VerifyActing(th.userCode, th.action, th.token))
            && (th.VerifyActing? ==>
                 var (u, r) := VerifyAct(s.db, th.userCode, th.action, th.token); t.db == u && next == Done(r))
  {
    hide StepJoin, StepRule, StepDropPeer, CodeByUser, VerifyAct;
  }

  lemma VerifyStep(
    env: Env, c: Cidr, worlds: seq<World>, move: Move,
    tid: nat, userCode: string, action: Action, token: string, a: nat, i: nat)
    requires a < i < |worlds| && Next(env, c, worlds[i - 1], move, worlds[i])
    requires Underway(worlds, tid, userCode, action, token, a, i - 1) && tid < worlds[i - 1].nextThread
    ensures Underway(worlds, tid, userCode, action, token, a, i) && tid < worlds[i].nextThread
  {
    hide Step, Record, Restore, Fresh, Enumerates, VerifyAct;
    var w, v := worlds[i - 1], worlds[i];
    if move == Proceed(tid) {
      VerifyThread(env, c, w.now, w.sys, w.threads[tid]);
      if w.threads[tid].VerifyActing? {
        assert DecidesAt(worlds, tid, userCode, action, token, v.threads[tid].response, i - 1);
      }
    } else {
      assert tid in v.threads ==> tid in w.threads && v.threads[tid] == w.threads[tid];
    }
  }

  lemma {:induction false} VerifyIsBracketed(
    env: Env, c: Cidr, worlds: seq<World>, moves: seq<Move>,
    tid: nat, userCode: string, action: Action, token: string, a: nat, i: nat)
    requires Behaviour(env, c, worlds, moves) && a <= i < |worlds|
    requires tid in worlds[a].threads && worlds[a].threads[tid] == Started(Verify(userCode, action, token))
    requires tid < worlds[a].nextThread
    ensures Underway(worlds, tid, userCode, action, token, a, i) && tid < worlds[i].nextThread
    decreases i
  {
    if a == i {
    } else {
      hide Next, Underway;
      VerifyIsBracketed(env, c, worlds, moves, tid, userCode, action, token, a, i - 1);
      Moved(env, c, worlds, moves, i - 1);
      VerifyStep(env, c, worlds, moves[i - 1], tid, userCode, action, token, a, i);
    }
  }

  ghost predicate VerdictMeans(t: Tables, u: Tables, userCode: string, action: Action, token: string, r: Response) {
    var before, after := CodeByUser(t, userCode), CodeByUser(u, userCode);
    && (r == VerifyApproved ==> action == ApproveIt && IsPending(before))
    && (r == VerifyDenied ==> action == DenyIt && (u != t <==> IsPending(before)))
    && (r == ServerError ==> action == ApproveIt && !IsPending(before))
    && (IsPending(before) ==> after == Some(DecidedRow(before.value, action, token)))
    && (!IsPending(before) ==> u == t)
  }

  lemma DecisionMeans(
    env: Env, c: Cidr, worlds: seq<World>, moves: seq<Move>,
    tid: nat, userCode: string, action: Action, token: string, r: Response, k: nat)
    requires Behaviour(env, c, worlds, moves) && worlds[0] == START
    requires k + 1 < |worlds| && DecidesAt(worlds, tid, userCode, action, token, r, k)
    ensures VerdictMeans(worlds[k].sys.db, worlds[k + 1].sys.db, userCode, action, token, r)
  {
    hide Behaviour, ConsumedOk, PeersOk, LogOk, RowOk, CodeByUser, HasPending, UniqueUserCodes, VerifyAct;
    EveryWorldIsOk(env, c, worlds, moves, k);
    DecisionOnRow(worlds[k].sys.db, userCode, action, token);
  }

  /**
    Whatever runs in between, a verdict was given by one UPDATE during the request. "Approved" is
    always true: the code was pending at that moment and is approved with the token right after it.
    "Denied" is answered in any case, and changes the code exactly if it was still pending then. An
    approval that comes too late is answered with an error and changes nothing.
   */
  lemma VerdictsUnderRaces(
    env: Env, c: Cidr, worlds: seq<World>, moves: seq<Move>,
    tid: nat, userCode: string, action: Action, token: string, a: nat, j: nat)
    requires Behaviour(env, c, worlds, moves) && worlds[0] == START && a <= j < |worlds|
    requires tid in worlds[a].threads && worlds[a].threads[tid] == Started(Verify(userCode, action, token))
    requires tid in worlds[j].threads && worlds[j].threads[tid].Done? && IsVerdict(worlds[j].threads[tid].response)
    ensures var r := worlds[j].threads[tid].response;
            exists k :: a <= k < j && k + 1 < |worlds| && DecidesAt(worlds, tid, userCode, action, token, r, k)
                         && VerdictMeans(worlds[k].sys.db, worlds[k + 1].sys.db, userCode, action, token, r)
  {
    hide Behaviour, CodesOk, ConsumedOk, PeersOk, VerdictMeans, DecidesAt;
    EveryWorldIsOk(env, c, worlds, moves, a);
    VerifyIsBracketed(env, c, worlds, moves, tid, userCode, action, token, a, j);
    var r := worlds[j].threads[tid].response;
    var k :| a <= k < j && DecidesAt(worlds, tid, userCode, action, token, r, k);
    DecisionMeans(env, c, worlds, moves, tid, userCode, action, token, r, k);
  }

  // ----- Two posts for one code -----

  lemma Go(env: Env, c: Cidr, worlds: seq<World>, moves: seq<Move>, move: Move, v: World)
    requires Behaviour(env, c, worlds, moves) && Next(env, c, worlds[|worlds| - 1], move, v)
    ensures Behaviour(env, c, worlds + [v], moves + [move])
  {
    hide Next;
  }

  lemma NotEmpty(env: Env, c: Cidr, worlds: seq<World>, moves: seq<Move>)
    requires Behaviour(env, c, worlds, moves)
    ensures |worlds| > 0
  {
  }

  /** A request that arrives and takes its first two steps, neither of which touches the tables. */
  lemma TwoSteps(env: Env, c: Cidr, worlds: seq<World>, moves: seq<Move>, req: Request, th1: Thread, th2: Thread)
    returns (worlds': seq<World>, moves': seq<Move>)
    requires Behaviour(env, c, worlds, moves)
    requires var w := worlds[|worlds| - 1];
             && w.nextThread !in w.threads
             && Step(env, c, w.now, w.sys, Started(req)) == (w.sys, th1) && (th1.CodeTimed? || th1.VerifyRead?)
             && Fresh(w.log, th1) && Step(env, c, w.now, w.sys, th1).1 == th2
    ensures Behaviour(env, c, worlds', moves') && |worlds'| > 1 && worlds'[0] == worlds[0]
    ensures var w, n := worlds[|worlds| - 1], worlds[|worlds| - 1].nextThread;
            worlds'[|worlds'| - 1]
            == w.(sys := Step(env, c, w.now, w.sys, th1).0, threads := w.threads[n := th2], nextThread := n + 1,
                  log := Record(w.log, w.sys.db, n, th1))
  {
    NotEmpty(env, c, worlds, moves);
    hide Step, Behaviour;
    var w := worlds[|worlds| - 1];
    var n := w.nextThread;
    var w1 := w.(threads := w.threads[n := Started(req)], nextThread := n + 1);
    var w2 := w1.(threads := w.threads[n := th1]);
    var w3 := w2.(sys := Step(env, c, w.now, w.sys, th1).0, threads := w.threads[n := th2],
                  log := Record(w.log, w.sys.db, n, th1));
    assert w1.threads[n := th1] == w2.threads && w2.threads[n := th2] == w3.threads;
    assert Record(w.log, w.sys.db, n, Started(req)) == w.log;
    Go(env, c, worlds, moves, Arrive(req), w1);
    Go(env, c, worlds + [w1], moves + [Arrive(req)], Proceed(n), w2);
    Go(env, c, worlds + [w1] + [w2], moves + [Arrive(req)] + [Proceed(n)], Proceed(n), w3);
    worlds' := worlds + [w1] + [w2] + [w3];
    moves' := moves + [Arrive(req)] + [Proceed(n)] + [Proceed(n)];
  }

  /** One more step of handler n. */
  lemma OneStep(env: Env, c: Cidr, worlds: seq<World>, moves: seq<Move>, n: nat, s: Sys, th: Thread)
    requires Behaviour(env, c, worlds, moves) && |worlds| > 0
    requires var w := worlds[|worlds| - 1];
             && n in w.threads && !w.threads[n].Done? && Fresh(w.log, w.threads[n])
             && Step(env, c, w.now, w.sys, w.threads[n]) == (s, th)
    ensures var w := worlds[|worlds| - 1];
            var v := w.(sys := s, threads := w.threads[n := th], log := Record(w.log, w.sys.db, n, w.threads[n]));
            Behaviour(env, c, worlds + [v], moves + [Proceed(n)])
  {
    hide Step, Behaviour, Record, Fresh;
    var w := worlds[|worlds| - 1];
    var v := w.(sys := s, threads := w.threads[n := th], log := Record(w.log, w.sys.db, n, w.threads[n]));
    Go(env, c, worlds, moves, Proceed(n), v);
  }

  /** The tables with one code. */
  function OneCode(dc: string, row: CodeRow): Sys { INITIAL.(db := EMPTY.(codes := map[dc := row])) }

  lemma OneCodeSteps(env: Env, c: Cidr, dc: string, row: CodeRow, action: Action, token: string)
    requires row.status == Pending && row.expiresAt >= 0 && row.userCode != "" && action != OtherAction
    ensures var s, uc := OneCode(dc, row), row.userCode;
            var th1 := VerifyRead(uc, action, token, Some(row));
            var th2 := VerifyActing(uc, action, token);
            && Step(env, c, 0, s, Started(Verify(uc, action, token))) == (s, th1)
            && Step(env, c, 0, s, th1) == (s, th2)
  {
    var s, uc := OneCode(dc, row), row.userCode;
    assert s.db.codes[dc] == row;
    assert CodeByUser(s.db, uc) == Some(row);
    hide CodeByUser, VerifyAct, OneCode, StepJoin, StepDropPeer, StepRule;
  }

  lemma OneCodeApproved(env: Env, c: Cidr, dc: string, row: CodeRow, token: string)
    requires row.status == Pending
    ensures Step(env, c, 0, OneCode(dc, row), VerifyActing(row.userCode, ApproveIt, token))
         == (OneCode(dc, DecidedRow(row, ApproveIt, token)), Done(VerifyApproved))
  {
    var s, uc := OneCode(dc, row), row.userCode;
    assert s.db.codes[dc] == row && HasPending(s.db, uc);
    assert Approve(s.db, uc, token) == OneCode(dc, DecidedRow(row, ApproveIt, token)).db;
    hide HasPending, Approve, StepJoin, StepDropPeer, StepRule;
  }

  lemma LateDenial(env: Env, c: Cidr, dc: string, row: CodeRow, token: string)
    requires row.status == Approved
    ensures var s := OneCode(dc, row);
            Step(env, c, 0, s, VerifyActing(row.userCode, DenyIt, token)) == (s, Done(VerifyDenied))
  {
    var s := OneCode(dc, row);
    assert Deny(s.db, row.userCode) == s.db;
    hide Deny, StepJoin, StepDropPeer, StepRule;
  }

  lemma FirstCode(env: Env, c: Cidr, dc: string, uc: string)
    ensures var row := NewRow(uc, 0);
            && Step(env, c, 0, INITIAL, Started(NewCode(dc, uc))) == (INITIAL, CodeTimed(dc, uc, 0))
            && Step(env, c, 0, INITIAL, CodeTimed(dc, uc, 0)) == (OneCode(dc, row), Done(CodeIssued(dc, uc)))
  {
    hide StepJoin, StepDropPeer, StepRule;
    assert EMPTY.codes[dc := NewRow(uc, 0)] == map[dc := NewRow(uc, 0)];
  }

  lemma JustStarted(env: Env, c: Cidr)
    ensures Behaviour(env, c, [START], [])
  {
  }

  /** A code is issued. */
  lemma Issued(env: Env, c: Cidr, dc: string, uc: string) returns (worlds: seq<World>, moves: seq<Move>)
    ensures Behaviour(env, c, worlds, moves) && |worlds| > 0 && worlds[0] == START
    ensures var w := worlds[|worlds| - 1];
            && w.sys == OneCode(dc, NewRow(uc, 0)) && w.now == 0 && w.log.tokens == {}
            && w.nextThread == 1 && w.threads.Keys == {0}
  {
    FirstCode(env, c, dc, uc);
    JustStarted(env, c);
    hide Step, Behaviour, OneCode, NewRow;
    worlds, moves := TwoSteps(env, c, [START], [], NewCode(dc, uc), CodeTimed(dc, uc, 0), Done(CodeIssued(dc, uc)));
  }

  /** A post arrives and reads the code as pending. */
  lemma Posted(
    env: Env, c: Cidr, worlds: seq<World>, moves: seq<Move>, dc: string, uc: string, action: Action, token: string)
    returns (worlds': seq<World>, moves': seq<Move>)
    requires uc != "" && action != OtherAction && Behaviour(env, c, worlds, moves) && |worlds| > 0
    requires var w := worlds[|worlds| - 1];
             w.sys == OneCode(dc, NewRow(uc, 0)) && w.now == 0 && w.nextThread !in w.threads
    ensures Behaviour(env, c, worlds', moves') && |worlds'| > 1 && worlds'[0] == worlds[0]
    ensures var w, n := worlds[|worlds| - 1], worlds[|worlds| - 1].nextThread;
            worlds'[|worlds'| - 1]
            == w.(threads := w.threads[n := VerifyActing(uc, action, token)], nextThread := n + 1)
  {
    var row := NewRow(uc, 0);
    OneCodeSteps(env, c, dc, row, action, token);
    hide Step, Behaviour, OneCode, NewRow;
    worlds', moves' := TwoSteps(env, c, worlds, moves, Verify(uc, action, token),
                                VerifyRead(uc, action, token, Some(row)), VerifyActing(uc, action, token));
  }

  /** Two posts for one code have both read it as pending. */
  lemma TwoPosts(env: Env, c: Cidr, dc: string, uc: string, token: string)
    returns (worlds: seq<World>, moves: seq<Move>)
    requires uc != ""
    ensures Behaviour(env, c, worlds, moves) && |worlds| > 0 && worlds[0] == START
    ensures var w := worlds[|worlds| - 1];
            && w.sys == OneCode(dc, NewRow(uc, 0)) && w.now == 0 && w.log.tokens == {}
            && 1 in w.threads && w.threads[1] == VerifyActing(uc, DenyIt, token)
            && 2 in w.threads && w.threads[2] == VerifyActing(uc, ApproveIt, token)
  {
    hide Step, Behaviour, OneCode, NewRow;
    worlds, moves := Issued(env, c, dc, uc);
    worlds, moves := Posted(env, c, worlds, moves, dc, uc, DenyIt, token);
    worlds, moves := Posted(env, c, worlds, moves, dc, uc, ApproveIt, token);
  }

  /**
    A race that makes an answer untrue: two posts read the pending code, one approves it, and the
    other one is answered "denied" although the code stays approved and its token can be consumed.
   */
  lemma DeniedThoughApproved(env: Env, c: Cidr, dc: string, uc: string, token: string)
    returns (worlds: seq<World>, moves: seq<Move>)
    requires uc != ""
    ensures Behaviour(env, c, worlds, moves) && |worlds| > 0 && worlds[0] == START
    ensures var w := worlds[|worlds| - 1];
            && 1 in w.threads && w.threads[1] == Done(VerifyDenied)
            && 2 in w.threads && w.threads[2] == Done(VerifyApproved)
            && CodeByDevice(w.sys.db, dc) == Some(CodeRow(uc, 600, Approved, Some(token)))
            && HasRedeemable(w.sys.db, token, w.now)
  {
    var row := NewRow(uc, 0);
    var approved := OneCode(dc, DecidedRow(row, ApproveIt, token));
    OneCodeApproved(env, c, dc, row, token);
    LateDenial(env, c, dc, DecidedRow(row, ApproveIt, token), token);
    assert Redeemable(approved.db.codes[dc], token, 0);
    hide Step, Behaviour, Record;
    worlds, moves := TwoPosts(env, c, dc, uc, token);
    var w := worlds[|worlds| - 1];
    OneStep(env, c, worlds, moves, 2, approved, Done(VerifyApproved));
    var v := w.(sys := approved, threads := w.threads[2 := Done(VerifyApproved)],
                log := Record(w.log, w.sys.db, 2, w.threads[2]));
    worlds, moves := worlds + [v], moves + [Proceed(2)];
    OneStep(env, c, worlds, moves, 1, approved, Done(VerifyDenied));
    var u := v.(threads := v.threads[1 := Done(VerifyDenied)], log := Record(v.log, v.sys.db, 1, v.threads[1]));
    worlds, moves := worlds + [u], moves + [Proceed(1)];
  }
}
