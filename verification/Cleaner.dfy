/**
  The background cleaner deletes expired device codes whenever it likes, and no response shows it:
  a simulation between the run with the cleaner and the run without.
 */
module Cleaner {
  import opened Wrappers
  import opened NetIP
  import opened Subnets
  import opened Allocator
  import opened Tables
  import opened Kernel
  import opened Handlers
  import opened CrashPoints
  import opened Runs

  predicate IsCleaner(op: Op) { !op.Restart? && op.req.Clean? }

  /** What is left of an operation without the cleaner: of a cleaner that is stopped, only the restart. */
  function Kept(op: Op): seq<Op> {
    if !IsCleaner(op) then [op]
    else if op.Handle? then []
    else [Restart(op.peerRows, op.ruleRows)]
  }

  function WithoutCleaner(ops: seq<Op>): seq<Op> {
    if ops == [] then [] else Kept(ops[0]) + WithoutCleaner(ops[1..])
  }

  /** The responses to all requests, in order; the cleaner, restarts and stopped handlers have none. */
  ghost function Responses(env: Env, c: Cidr, s: Sys, ops: seq<Op>): seq<Response>
    decreases |ops|
  {
    if ops == [] then []
    else
      var rest := Responses(env, c, Apply(env, c, s, ops[0]), ops[1..]);
      if !ops[0].Handle? || IsCleaner(ops[0]) then rest
      else [Effect(env, c, ops[0].now, s, ops[0].req).1] + rest
  }

  /** The codes that a request draws. */
  function NewDeviceCodes(req: Request): set<string> { if req.NewCode? then {req.deviceCode} else {} }

  function NewUserCodes(req: Request): set<string> { if req.NewCode? then {req.userCode} else {} }

  /** The clock does not go back, and codes that are drawn were never drawn before. */
  predicate Plausible(ops: seq<Op>, now: int, deviceCodes: set<string>, userCodes: set<string>) {
    ops != [] ==>
      if ops[0].Restart? then Plausible(ops[1..], now, deviceCodes, userCodes)
      else
        var d, u := NewDeviceCodes(ops[0].req), NewUserCodes(ops[0].req);
        now <= ops[0].now && d !! deviceCodes && u !! userCodes
        && Plausible(ops[1..], ops[0].now, deviceCodes + d, userCodes + u)
  }

  ghost predicate Drawn(codes: map<string, CodeRow>, deviceCodes: set<string>, userCodes: set<string>) {
    codes.Keys <= deviceCodes && forall d :: d in codes ==> codes[d].userCode in userCodes
  }

  // ----- The relation -----

  /** The cleaned table lacks some rows of the full one, all of which have expired. */
  ghost predicate Fewer(full: map<string, CodeRow>, cleaned: map<string, CodeRow>, now: int) {
    && (forall d :: d in cleaned ==> d in full && cleaned[d] == full[d])
    && (forall d :: d in full && d !in cleaned ==> full[d].expiresAt < now)
  }

  ghost predicate Simulates(full: Sys, cleaned: Sys, now: int) {
    && cleaned == WithCodes(full, cleaned.db.codes)
    && Fewer(full.db.codes, cleaned.db.codes, now)
    && UniqueUserCodes(full.db.codes)
  }

  lemma StaysRelated(full: Sys, cleaned: Sys, before: int, now: int)
    requires Simulates(full, cleaned, before) && before <= now
    ensures Simulates(full, cleaned, now)
  {
  }

  /** Handlers at one point: what they have read may differ only where both readings count as expired. */
  ghost predicate SamePoint(th: Thread, th': Thread, now: int) {
    || th == th'
    || (th.PollRead? && th'.PollRead? && Expired(th.row, now) && Expired(th'.row, now))
    || (th.ViewRead? && th'.ViewRead? && Expired(th.row, now) && Expired(th'.row, now))
    || (th.VerifyRead? && th'.VerifyRead? && th' == th.(row := th'.row)
        && Expired(th.row, now) && Expired(th'.row, now))
  }

  ghost predicate FreshFor(codes: map<string, CodeRow>, req: Request) {
    req.NewCode? ==> req.deviceCode !in codes && forall d :: d in codes ==> codes[d].userCode != req.userCode
  }

  /** A row that is missing from the cleaned table reads as expired from the full one. */
  lemma SameLookups(full: Sys, cleaned: Sys, now: int, code: string)
    requires Simulates(full, cleaned, now)
    ensures var r, q := CodeByDevice(full.db, code), CodeByDevice(cleaned.db, code);
            r == q || (Expired(r, now) && Expired(q, now))
    ensures var r, q := CodeByUser(full.db, code), CodeByUser(cleaned.db, code);
            r == q || (Expired(r, now) && Expired(q, now))
  {
  }

  // ----- One step -----

  ghost predicate StepsSimulate(env: Env, c: Cidr, now: int, full: Sys, cleaned: Sys, th: Thread, th': Thread) {
    var (t, u) := Step(env, c, now, full, th);
    var (t', u') := Step(env, c, now, cleaned, th');
    Simulates(t, t', now) && SamePoint(u, u', now)
  }

  /** Steps that never look at the codes. */
  predicate BlindToCodes(th: Thread) { InDropPeer(th) || InRule(th) || (InJoin(th) && !th.JoinTimed?) || th.Done? }

  lemma BlindJoin(env: Env, c: Cidr, s: Sys, codes: map<string, CodeRow>, th: Thread)
    requires !th.JoinTimed?
    ensures var (t, u) := StepJoin(env, c, s, th);
            StepJoin(env, c, WithCodes(s, codes), th) == (WithCodes(t, codes), u) && t.db.codes == s.db.codes
  {
    hide Allocate, AddPeer, IPTaken;
  }

  lemma BlindDropPeer(env: Env, s: Sys, codes: map<string, CodeRow>, th: Thread)
    ensures var (t, u) := StepDropPeer(env, s, th);
            StepDropPeer(env, WithCodes(s, codes), th) == (WithCodes(t, codes), u) && t.db.codes == s.db.codes
  {
    hide RemoveRule, RemovePeer;
  }

  lemma BlindRule(env: Env, s: Sys, codes: map<string, CodeRow>, th: Thread)
    ensures var (t, u) := StepRule(env, s, th);
            StepRule(env, WithCodes(s, codes), th) == (WithCodes(t, codes), u) && t.db.codes == s.db.codes
  {
    hide AddRule, Unmap;
  }

  lemma BlindSteps(env: Env, c: Cidr, now: int, s: Sys, codes: map<string, CodeRow>, th: Thread)
    requires BlindToCodes(th)
    ensures var (t, u) := Step(env, c, now, s, th);
            Step(env, c, now, WithCodes(s, codes), th) == (WithCodes(t, codes), u) && t.db.codes == s.db.codes
  {
    hide StepJoin, StepDropPeer, StepRule;
    if InJoin(th) {
      BlindJoin(env, c, s, codes, th);
    } else if InDropPeer(th) {
      BlindDropPeer(env, s, codes, th);
    } else if InRule(th) {
      BlindRule(env, s, codes, th);
    }
  }

  lemma StoringSimulates(env: Env, c: Cidr, now: int, full: Sys, cleaned: Sys, req: Request)
    requires Simulates(full, cleaned, now) && req.CreateRule?
    ensures StepsSimulate(env, c, now, full, cleaned, Started(req), Started(req))
  {
    hide Acceptable, Normalized, Fewer, UniqueUserCodes, StepJoin, StepDropPeer, StepRule, StepDevice;
  }

  lemma FirstStepSimulates(env: Env, c: Cidr, now: int, full: Sys, cleaned: Sys, req: Request)
    requires Simulates(full, cleaned, now)
    ensures StepsSimulate(env, c, now, full, cleaned, Started(req), Started(req))
  {
    hide CodeByUser, CodeByDevice, Fewer, UniqueUserCodes, StepJoin, StepDropPeer, StepRule, StepDevice;
    if req.CreateRule? {
      StoringSimulates(env, c, now, full, cleaned, req);
      hide StepsSimulate;
    } else if req.Poll? {
      SameLookups(full, cleaned, now, req.deviceCode);
    } else if req.View? || req.Verify? {
      SameLookups(full, cleaned, now, req.userCode);
    }
  }

  lemma SameConsumption(full: Tables, cleaned: Tables, token: string, now: int)
    requires Fewer(full.codes, cleaned.codes, now) && UniqueUserCodes(full.codes)
    ensures HasRedeemable(full, token, now) <==> HasRedeemable(cleaned, token, now)
    ensures Fewer(Consume(full, token, now).codes, Consume(cleaned, token, now).codes, now)
    ensures UniqueUserCodes(Consume(full, token, now).codes)
  {
  }

  lemma ConsumptionSimulates(env: Env, c: Cidr, now: int, full: Sys, cleaned: Sys, th: Thread)
    requires Simulates(full, cleaned, now) && th.JoinTimed? && th.clock == now
    ensures StepsSimulate(env, c, now, full, cleaned, th, th)
  {
    SameConsumption(full.db, cleaned.db, th.token, now);
    hide Fewer, UniqueUserCodes, HasRedeemable, Redeemable, StepDropPeer, StepRule, StepDevice, StepStarted;
  }

  lemma InsertionSimulates(full: Tables, cleaned: Tables, now: int, dc: string, row: CodeRow)
    requires Fewer(full.codes, cleaned.codes, now) && UniqueUserCodes(full.codes)
    requires FreshFor(full.codes, NewCode(dc, row.userCode))
    ensures var t, u := full.codes[dc := row], cleaned.codes[dc := row];
            && InsertCode(full, dc, row) == Some(full.(codes := t))
            && InsertCode(cleaned, dc, row) == Some(cleaned.(codes := u))
            && Fewer(t, u, now) && UniqueUserCodes(t)
  {
  }

  lemma IssueSimulates(env: Env, c: Cidr, now: int, full: Sys, cleaned: Sys, th: Thread)
    requires Simulates(full, cleaned, now) && th.CodeTimed?
    requires FreshFor(full.db.codes, NewCode(th.deviceCode, th.userCode))
    ensures StepsSimulate(env, c, now, full, cleaned, th, th)
  {
    hide InsertCode, FreshFor, Fewer, UniqueUserCodes, StepJoin, StepDropPeer, StepRule, StepStarted;
    InsertionSimulates(full.db, cleaned.db, now, th.deviceCode, NewRow(th.userCode, th.clock));
  }

  lemma DecisionSimulates(full: Tables, cleaned: Tables, now: int, userCode: string, action: Action, token: string)
    requires Fewer(full.codes, cleaned.codes, now) && UniqueUserCodes(full.codes)
    requires VerifyRefusal(CodeByUser(full, userCode), action, now).None?
    ensures var (t, r) := VerifyAct(full, userCode, action, token);
            var (u, q) := VerifyAct(cleaned, userCode, action, token);
            && r == q && Fewer(t.codes, u.codes, now) && UniqueUserCodes(t.codes)
            && t == full.(codes := t.codes) && u == cleaned.(codes := u.codes)
  {
    var d :| d in full.codes && full.codes[d].userCode == userCode && CodeByUser(full, userCode) == Some(full.codes[d]);
    assert d in cleaned.codes && cleaned.codes[d] == full.codes[d];
    assert PendingFor(full.codes[d], userCode) && PendingFor(cleaned.codes[d], userCode);
  }

  lemma ActSimulates(env: Env, c: Cidr, now: int, full: Sys, cleaned: Sys, th: Thread)
    requires Simulates(full, cleaned, now) && th.VerifyActing?
    requires VerifyRefusal(CodeByUser(full.db, th.userCode), th.action, now).None?
    ensures StepsSimulate(env, c, now, full, cleaned, th, th)
  {
    DecisionSimulates(full.db, cleaned.db, now, th.userCode, th.action, th.token);
    hide VerifyAct, VerifyRefusal, CodeByUser, Fewer, UniqueUserCodes, StepJoin, StepDropPeer, StepRule, StepStarted;
  }

  /** The answer to a reading that has expired does not depend on what was read. */
  lemma ReadingsSimulate(env: Env, c: Cidr, now: int, full: Sys, cleaned: Sys, th: Thread, th': Thread)
    requires Simulates(full, cleaned, now) && SamePoint(th, th', now)
    requires th.PollRead? || th.ViewRead? || th.VerifyRead?
    ensures StepsSimulate(env, c, now, full, cleaned, th, th')
  {
    hide Fewer, UniqueUserCodes, StepJoin, StepDropPeer, StepRule, StepStarted;
  }

  lemma BlindStepsSimulate(env: Env, c: Cidr, now: int, full: Sys, cleaned: Sys, th: Thread)
    requires Simulates(full, cleaned, now) && BlindToCodes(th)
    ensures StepsSimulate(env, c, now, full, cleaned, th, th)
  {
    BlindSteps(env, c, now, full, cleaned.db.codes, th);
    hide Step, Fewer, UniqueUserCodes;
  }

  /** Every step of every handler but the cleaner keeps the two systems related and the handlers at one point. */
  lemma StepSimulates(
    env: Env, c: Cidr, now: int, s: Sys, req: Request, full: Sys, cleaned: Sys, th: Thread, th': Thread)
    requires !req.Clean? && FreshFor(s.db.codes, req) && Point(env, c, now, s, req, full.db, th)
    requires Simulates(full, cleaned, now) && SamePoint(th, th', now)
    ensures StepsSimulate(env, c, now, full, cleaned, th, th')
  {
    hide StepsSimulate, Fewer, UniqueUserCodes, VerifyRefusal, CodeByUser, CodeByDevice;
    if BlindToCodes(th) {
      BlindStepsSimulate(env, c, now, full, cleaned, th);
    } else if th.Started? {
      FirstStepSimulates(env, c, now, full, cleaned, th.req);
    } else if th.JoinTimed? {
      ConsumptionSimulates(env, c, now, full, cleaned, th);
    } else if th.CodeTimed? {
      IssueSimulates(env, c, now, full, cleaned, th);
    } else if th.VerifyActing? {
      ActSimulates(env, c, now, full, cleaned, th);
    } else {
      ReadingsSimulate(env, c, now, full, cleaned, th, th');
    }
  }

  // ----- Whole handlers, and handlers that are stopped -----

  lemma {:induction false} PointsSimulate(env: Env, c: Cidr, now: int, full: Sys, cleaned: Sys, req: Request, n: nat)
    requires !req.Clean? && FreshFor(full.db.codes, req) && Simulates(full, cleaned, now)
    ensures var (t, th) := After(env, c, now, full, req, n);
            var (t', th') := After(env, c, now, cleaned, req, n);
            Simulates(t, t', now) && SamePoint(th, th', now)
  {
    hide Step, Simulates, FreshFor, Point;
    if n == 0 {
    } else {
      PointsSimulate(env, c, now, full, cleaned, req, n - 1);
      EveryPoint(env, c, now, full, req, n - 1);
      var (t, th) := After(env, c, now, full, req, n - 1);
      var (t', th') := After(env, c, now, cleaned, req, n - 1);
      StepSimulates(env, c, now, full, req, t, t', th, th');
    }
  }

  lemma {:induction false} SoloSimulates(
    env: Env, c: Cidr, now: int, s: Sys, req: Request, full: Sys, cleaned: Sys, th: Thread, th': Thread)
    requires !req.Clean? && FreshFor(s.db.codes, req) && Point(env, c, now, s, req, full.db, th)
    requires Simulates(full, cleaned, now) && SamePoint(th, th', now)
    ensures var (t, r) := Solo(env, c, now, full, th);
            var (t', r') := Solo(env, c, now, cleaned, th');
            Simulates(t, t', now) && r == r'
    decreases Stage(th), Work(th)
  {
    hide Step, Simulates, FreshFor, Point;
    if th.Done? {
    } else {
      StepSimulates(env, c, now, s, req, full, cleaned, th, th');
      PointStep(env, c, now, s, req, full, th);
      Advances(env, c, now, full, th);
      var (t, u) := Step(env, c, now, full, th);
      var (t', u') := Step(env, c, now, cleaned, th');
      SoloSimulates(env, c, now, s, req, t, t', u, u');
    }
  }

  /** Every request but the cleaner's is answered alike, and the tables stay related. */
  lemma RequestSimulates(env: Env, c: Cidr, full: Sys, cleaned: Sys, before: int, now: int, req: Request)
    requires !req.Clean? && FreshFor(full.db.codes, req) && Simulates(full, cleaned, before) && before <= now
    ensures Effect(env, c, now, full, req).1 == Effect(env, c, now, cleaned, req).1
    ensures Simulates(Effect(env, c, now, full, req).0, Effect(env, c, now, cleaned, req).0, now)
  {
    StaysRelated(full, cleaned, before, now);
    hide Effect, Solo, Simulates, FreshFor;
    WholeHandler(env, c, now, full, req);
    WholeHandler(env, c, now, cleaned, req);
    SoloSimulates(env, c, now, full, req, full, cleaned, Started(req), Started(req));
  }

  lemma CleaningSimulates(full: Sys, cleaned: Sys, before: int, now: int)
    requires Simulates(full, cleaned, before) && before <= now
    ensures Simulates(full, cleaned.(db := CleanExpired(cleaned.db, now)), now)
  {
  }

  lemma CleanerIs(env: Env, c: Cidr, now: int, s: Sys)
    ensures Effect(env, c, now, s, Clean).0 == s.(db := CleanExpired(s.db, now))
  {
  }

  lemma RestoredSimulates(env: Env, full: Sys, cleaned: Sys, now: int, ps: PeerRows, rs: RuleRows)
    requires Simulates(full, cleaned, now)
    ensures Simulates(Restore(env, full.db, ps, rs), Restore(env, cleaned.db, ps, rs), now)
  {
    hide Fewer, UniqueUserCodes, RestorePeers, RestoreRules;
  }

  function TimeOf(op: Op, before: int): int { if op.Restart? then before else op.now }

  /** The run without the cleaner follows each operation with what is left of it. */
  lemma OpSimulates(env: Env, c: Cidr, full: Sys, cleaned: Sys, before: int, op: Op)
    requires Simulates(full, cleaned, before) && before <= TimeOf(op, before)
    requires !op.Restart? ==> FreshFor(full.db.codes, op.req)
    ensures var next := if Kept(op) == [] then full else Apply(env, c, full, Kept(op)[0]);
            Simulates(next, Apply(env, c, cleaned, op), TimeOf(op, before))
  {
    hide Simulates, FreshFor, Effect, After, Restore;
    StaysRelated(full, cleaned, before, TimeOf(op, before));
    if IsCleaner(op) {
      CleaningSimulates(full, cleaned, before, op.now);
      CleanerIs(env, c, op.now, cleaned);
      if op.CrashIn? {
        TablesAtPoint(env, c, op.now, cleaned, op.req, op.n);
        RestoredSimulates(env, full, cleaned, op.now, op.peerRows, op.ruleRows);
        RestoredSimulates(env, full, Effect(env, c, op.now, cleaned, Clean).0, op.now, op.peerRows, op.ruleRows);
      }
    } else if op.Handle? {
      RequestSimulates(env, c, full, cleaned, before, op.now, op.req);
    } else if op.Restart? {
      RestoredSimulates(env, full, cleaned, before, op.peerRows, op.ruleRows);
    } else {
      PointsSimulate(env, c, op.now, full, cleaned, op.req, op.n);
      var left, left' := After(env, c, op.now, full, op.req, op.n).0, After(env, c, op.now, cleaned, op.req, op.n).0;
      RestoredSimulates(env, left, left', op.now, op.peerRows, op.ruleRows);
    }
  }

  // ----- Which codes have been drawn -----

  lemma CodesDraw(env: Env, c: Cidr, now: int, s: Sys, req: Request, deviceCodes: set<string>, userCodes: set<string>)
    requires (req.NewCode? || req.Poll? || req.View? || req.Clean?) && Drawn(s.db.codes, deviceCodes, userCodes)
    ensures Drawn(Effect(env, c, now, s, req).0.db.codes,
                  deviceCodes + NewDeviceCodes(req), userCodes + NewUserCodes(req))
  {
    hide CodeByUser, TokenResponse, ViewResponse;
  }

  lemma ActDraws(t: Tables, uc: string, action: Action, token: string, deviceCodes: set<string>, userCodes: set<string>)
    requires Drawn(t.codes, deviceCodes, userCodes)
    ensures Drawn(VerifyAct(t, uc, action, token).0.codes, deviceCodes, userCodes)
    ensures deviceCodes + {} == deviceCodes && userCodes + {} == userCodes
  {
  }

  lemma DrawnIn(
    codes: map<string, CodeRow>, deviceCodes: set<string>, userCodes: set<string>, d: set<string>, u: set<string>)
    requires Drawn(codes, deviceCodes, userCodes)
    ensures Drawn(codes, deviceCodes + d, userCodes + u)
  {
  }

  /** Only NewCode adds codes. */
  lemma EffectDraws(env: Env, c: Cidr, now: int, s: Sys, req: Request, deviceCodes: set<string>, userCodes: set<string>)
    requires Drawn(s.db.codes, deviceCodes, userCodes)
    ensures Drawn(Effect(env, c, now, s, req).0.db.codes,
                  deviceCodes + NewDeviceCodes(req), userCodes + NewUserCodes(req))
  {
    if req.Join? {
      JoinCodes(env, c, now, s, req);
      hide Effect;
    } else if req.DropPeer? || req.CreateRule? || req.DropRule? {
      hide Acceptable, AddRule, Unmap, RemovePeer, KeysOf, Normalized, Drawn;
      assert Effect(env, c, now, s, req).0.db.codes == s.db.codes;
    } else if req.Verify? {
      hide VerifyAct, VerifyRefusal, CodeByUser, Drawn;
      ActDraws(s.db, req.userCode, req.action, req.token, deviceCodes, userCodes);
    } else {
      CodesDraw(env, c, now, s, req, deviceCodes, userCodes);
      hide Effect, Drawn;
    }
    DrawnIn(s.db.codes, deviceCodes, userCodes, NewDeviceCodes(req), NewUserCodes(req));
  }

  lemma HalfWayDraws(s: Sys, token: string, now: int, name: string, deviceCodes: set<string>, userCodes: set<string>)
    requires Drawn(s.db.codes, deviceCodes, userCodes)
    ensures Drawn(Consume(s.db, token, now).codes, deviceCodes, userCodes)
    ensures name in s.db.peers ==> WithoutRules(s, name).codes == s.db.codes
  {
  }

  lemma DrawnAfter(env: Env, c: Cidr, s: Sys, op: Op, deviceCodes: set<string>, userCodes: set<string>)
    requires !op.Restart? && Drawn(s.db.codes, deviceCodes, userCodes)
    ensures Drawn(Apply(env, c, s, op).db.codes, deviceCodes + NewDeviceCodes(op.req), userCodes + NewUserCodes(op.req))
  {
    hide Effect, After, Drawn, NewDeviceCodes, NewUserCodes, Consume, WithoutRules, RestorePeers, RestoreRules;
    EffectDraws(env, c, op.now, s, op.req, deviceCodes, userCodes);
    if op.CrashIn? {
      TablesAtPoint(env, c, op.now, s, op.req, op.n);
      var token := if op.req.Join? then op.req.token else "";
      HalfWayDraws(s, token, op.now, if op.req.DropPeer? then op.req.name else "", deviceCodes, userCodes);
      DrawnIn(s.db.codes, deviceCodes, userCodes, NewDeviceCodes(op.req), NewUserCodes(op.req));
      DrawnIn(Consume(s.db, token, op.now).codes, deviceCodes, userCodes, NewDeviceCodes(op.req), NewUserCodes(op.req));
    }
  }

  lemma FreshDraw(codes: map<string, CodeRow>, req: Request, deviceCodes: set<string>, userCodes: set<string>)
    requires Drawn(codes, deviceCodes, userCodes)
    requires NewDeviceCodes(req) !! deviceCodes && NewUserCodes(req) !! userCodes
    ensures FreshFor(codes, req)
  {
    if req.NewCode? {
      assert req.deviceCode in NewDeviceCodes(req) && req.userCode in NewUserCodes(req);
    }
  }

  // ----- Runs -----

  lemma RestartDraws(env: Env, c: Cidr, s: Sys, op: Op, deviceCodes: set<string>, userCodes: set<string>)
    requires op.Restart? && Drawn(s.db.codes, deviceCodes, userCodes)
    ensures Drawn(Apply(env, c, s, op).db.codes, deviceCodes, userCodes)
  {
    hide RestorePeers, RestoreRules, Drawn;
  }

  lemma KeptDraws(env: Env, c: Cidr, s: Sys, op: Op, deviceCodes: set<string>, userCodes: set<string>)
    requires !op.Restart? && Kept(op) != [] && Drawn(s.db.codes, deviceCodes, userCodes)
    ensures Drawn(Apply(env, c, s, Kept(op)[0]).db.codes,
                  deviceCodes + NewDeviceCodes(op.req), userCodes + NewUserCodes(op.req))
  {
    hide Apply, Drawn, NewDeviceCodes, NewUserCodes;
    if IsCleaner(op) {
      RestartDraws(env, c, s, Kept(op)[0], deviceCodes, userCodes);
      DrawnIn(Apply(env, c, s, Kept(op)[0]).db.codes, deviceCodes, userCodes, NewDeviceCodes(op.req),
              NewUserCodes(op.req));
    } else {
      DrawnAfter(env, c, s, op, deviceCodes, userCodes);
    }
  }

  lemma {:induction false} Simulation(
    env: Env, c: Cidr, full: Sys, cleaned: Sys, before: int,
    ops: seq<Op>, deviceCodes: set<string>, userCodes: set<string>)
    requires Simulates(full, cleaned, before) && Plausible(ops, before, deviceCodes, userCodes)
    requires Drawn(full.db.codes, deviceCodes, userCodes)
    ensures Responses(env, c, cleaned, ops) == Responses(env, c, full, WithoutCleaner(ops))
    decreases |ops|
  {
    if ops == [] {
    } else {
      var op, rest, kept := ops[0], ops[1..], WithoutCleaner(ops);
      hide Effect, Simulates, Drawn, Apply, NewDeviceCodes, NewUserCodes, FreshFor;
      if !op.Restart? {
        FreshDraw(full.db.codes, op.req, deviceCodes, userCodes);
      }
      OpSimulates(env, c, full, cleaned, before, op);
      var cleaned' := Apply(env, c, cleaned, op);
      if Kept(op) == [] {
        assert kept == WithoutCleaner(rest);
        DrawnIn(full.db.codes, deviceCodes, userCodes, NewDeviceCodes(op.req), NewUserCodes(op.req));
        Simulation(env, c, full, cleaned', op.now, rest,
                   deviceCodes + NewDeviceCodes(op.req), userCodes + NewUserCodes(op.req));
      } else {
        var op' := Kept(op)[0];
        var full' := Apply(env, c, full, op');
        assert kept[0] == op' && kept[1..] == WithoutCleaner(rest);
        if op.Restart? {
          RestartDraws(env, c, full, op, deviceCodes, userCodes);
          Simulation(env, c, full', cleaned', before, rest, deviceCodes, userCodes);
        } else {
          KeptDraws(env, c, full, op, deviceCodes, userCodes);
          if op.Handle? {
            RequestSimulates(env, c, full, cleaned, before, op.now, op.req);
          }
          Simulation(env, c, full', cleaned', op.now, rest,
                     deviceCodes + NewDeviceCodes(op.req), userCodes + NewUserCodes(op.req));
        }
      }
    }
  }

  /**
    Cleaner transparency: on runs of whole handlers, restarts and handlers stopped by one, with a
    clock that does not go back and fresh codes, wherever CleanExpiredDeviceCodes runs, every
    response of every handler is the one it would have given had the cleaner never run.
   */
  lemma CleanerIsTransparent(
    env: Env, c: Cidr, s: Sys, now: int, ops: seq<Op>, deviceCodes: set<string>, userCodes: set<string>)
    requires UniqueUserCodes(s.db.codes) && Drawn(s.db.codes, deviceCodes, userCodes)
    requires Plausible(ops, now, deviceCodes, userCodes)
    ensures Responses(env, c, s, ops) == Responses(env, c, s, WithoutCleaner(ops))
  {
    assert Simulates(s, s, now);
    Simulation(env, c, s, s, now, ops, deviceCodes, userCodes);
  }

  // ----- The boundary -----

  /**
    Between the polls' `<` and the join's `>`: a token that a poll returns can be consumed by a join
    that reads the same clock exactly if that is not the second of the code's expiry, and by a later
    one exactly if it comes before the expiry.
   */
  lemma PolledTokenIsRedeemableIff(t: Tables, dc: string, token: string, now: int, later: int)
    requires dc in t.codes && t.codes[dc].token == Some(token) && now <= later
    requires TokenResponse(CodeByDevice(t, dc), now) == TokenApproved(token)
    ensures Redeemable(t.codes[dc], token, now) <==> t.codes[dc].expiresAt != now
    ensures dc !in Consume(t, token, later).codes <==> later < t.codes[dc].expiresAt
    ensures later < t.codes[dc].expiresAt ==> HasRedeemable(t, token, later)
    ensures HasRedeemable(t, token, later) && later >= t.codes[dc].expiresAt ==>
              exists d :: d in t.codes && d != dc && t.codes[d].token == Some(token)
  {
  }

  /** At the very second of its expiry an approved code is not cleaned, and its token is returned but not consumed. */
  lemma AtTheSecondOfExpiry(t: Tables, dc: string, now: int)
    requires dc in t.codes && t.codes[dc].status == Approved && t.codes[dc].token.Some? && t.codes[dc].expiresAt == now
    ensures dc in CleanExpired(t, now).codes
    ensures TokenResponse(CodeByDevice(t, dc), now) == TokenApproved(t.codes[dc].token.value)
    ensures dc in Consume(t, t.codes[dc].token.value, now).codes
    ensures dc !in CleanExpired(t, now + 1).codes && TokenResponse(CodeByDevice(t, dc), now + 1) == TokenExpired
    ensures dc !in Consume(t, t.codes[dc].token.value, now - 1).codes
  {
  }

  /**
    Freshness is needed: while an expired row still holds a user code, drawing the same user code
    fails, and the cleaner turns that failure into a success.
   */
  lemma CollisionShowsCleaner(env: Env, c: Cidr, s: Sys, now: int, stale: string, dc: string, uc: string)
    requires stale in s.db.codes && s.db.codes[stale].userCode == uc && s.db.codes[stale].expiresAt < now
    requires UniqueUserCodes(s.db.codes) && dc !in s.db.codes
    ensures Effect(env, c, now, s, NewCode(dc, uc)).1 == ServerError
    ensures Effect(env, c, now, Effect(env, c, now, s, Clean).0, NewCode(dc, uc)).1 == CodeIssued(dc, uc)
  {
  }
}
