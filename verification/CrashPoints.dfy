/** How far a handler has got when it stops between two of its steps, and what the tables are there. */
module CrashPoints {
  import opened NetIP
  import opened Subnets
  import opened Allocator
  import opened Tables
  import opened Kernel
  import opened Handlers

  /** The state and the handler after n of its steps. */
  ghost function After(env: Env, c: Cidr, now: int, s: Sys, req: Request, n: nat): (Sys, Thread) {
    if n == 0 then (s, Started(req))
    else var (s1, th1) := After(env, c, now, s, req, n - 1); Step(env, c, now, s1, th1)
  }

  /** From every point the rest of the handler leads to the whole handler's effect. */
  lemma {:induction false} RestOfHandler(env: Env, c: Cidr, now: int, s: Sys, req: Request, n: nat)
    ensures var (s1, th1) := After(env, c, now, s, req, n);
            Solo(env, c, now, s1, th1) == Effect(env, c, now, s, req)
  {
    hide Solo, Step, Effect;
    if n == 0 {
      WholeHandler(env, c, now, s, req);
    } else {
      RestOfHandler(env, c, now, s, req, n - 1);
      var (s1, th1) := After(env, c, now, s, req, n - 1);
      SoloStep(env, c, now, s1, th1);
    }
  }

  // ----- The tables at each point -----

  /** What a handler knows and has done to the tables at each of its points. */
  ghost predicate Point(env: Env, c: Cidr, now: int, s: Sys, req: Request, t: Tables, th: Thread) {
    match th
    case Done(_) => true
    case JoinStored(_, _, _) => req.Join?
    case RuleStored(_, _) => req.CreateRule?
    case JoinConsumed(_, _) => req.Join? && t == Consume(s.db, req.token, now)
    case JoinAllocated(_, _, _) => req.Join? && t == Consume(s.db, req.token, now)
    case DropPeerPurging(name, _) => req == DropPeer(name) && Removable(env, s, name) && t == WithoutRules(s, name)
    case _ => t == s.db && Untouched(env, now, s, req, th)
  }

  /** The tables once DeletePeer has deleted the rules of the peer, but not yet the peer. */
  function WithoutRules(s: Sys, name: string): Tables
    requires name in s.db.peers
  {
    DeleteRulesFrom(s.db, s.db.peers[name].assignedIP)
  }

  /** The points before a handler's first write to the tables. */
  ghost predicate Untouched(env: Env, now: int, s: Sys, req: Request, th: Thread) {
    match th
    case Started(r) => r == req
    case CodeTimed(dc, uc, clock) => req == NewCode(dc, uc) && clock == now
    case PollRead(row) => req.Poll? && row == CodeByDevice(s.db, req.deviceCode)
    case ViewRead(row) => req.View? && row == CodeByUser(s.db, req.userCode)
    case VerifyRead(uc, action, token, row) => req == Verify(uc, action, token) && row == CodeByUser(s.db, uc)
    case VerifyActing(uc, action, token) =>
      req == Verify(uc, action, token) && VerifyRefusal(CodeByUser(s.db, uc), action, now).None?
    case JoinTimed(token, _, _, clock) => req.Join? && token == req.token && clock == now
    case DropPeerFound(name, peer) =>
      req == DropPeer(name) && name != "" && name in s.db.peers && peer == s.db.peers[name]
    case DropPeerUnwired(name, ip) =>
      req == DropPeer(name) && Removable(env, s, name) && ip == s.db.peers[name].assignedIP
    case DropPeerSelected(name, ip, _) =>
      req == DropPeer(name) && Removable(env, s, name) && ip == s.db.peers[name].assignedIP
    case DropRuleFound(id, _) => req == DropRule(id)
    case DropRuleUnmapped(id) => req == DropRule(id)
    case CleanTimed(clock) => req.Clean? && clock == now
    case _ => false
  }

  lemma PointStep(env: Env, c: Cidr, now: int, s: Sys, req: Request, s1: Sys, th1: Thread)
    requires Point(env, c, now, s, req, s1.db, th1)
    ensures var (s2, th2) := Step(env, c, now, s1, th1); Point(env, c, now, s, req, s2.db, th2)
  {
    if InJoin(th1) {
      JoinPoint(env, c, now, s, req, s1, th1);
    } else if InRule(th1) {
      RulePoint(env, c, now, s, req, s1, th1);
    } else if th1.DropPeerFound? {
      FoundPoint(env, c, now, s, req, s1, th1);
    } else if th1.DropPeerUnwired? || th1.DropPeerSelected? {
      SelectedPoint(env, c, now, s, req, s1, th1);
    } else if th1.DropPeerPurging? {
      PurgingPoint(env, c, now, s, req, s1, th1);
    } else if th1.Started? {
      FirstPoint(env, c, now, s, req, s1, th1);
    } else {
      DevicePoint(env, c, now, s, req, s1, th1);
    }
  }

  lemma JoinPoint(env: Env, c: Cidr, now: int, s: Sys, req: Request, s1: Sys, th1: Thread)
    requires Point(env, c, now, s, req, s1.db, th1) && InJoin(th1)
    ensures var (s2, th2) := Step(env, c, now, s1, th1); Point(env, c, now, s, req, s2.db, th2)
  {
    hide Allocate, InsertPeer, AddPeer, HasRedeemable, Consume, StepRule, StepDropPeer, StepDevice, StepStarted;
  }

  lemma RulePoint(env: Env, c: Cidr, now: int, s: Sys, req: Request, s1: Sys, th1: Thread)
    requires Point(env, c, now, s, req, s1.db, th1) && InRule(th1)
    ensures var (s2, th2) := Step(env, c, now, s1, th1); Point(env, c, now, s, req, s2.db, th2)
  {
    hide AddRule, Unmap, StepJoin, StepDropPeer, StepDevice, StepStarted;
  }

  lemma FoundPoint(env: Env, c: Cidr, now: int, s: Sys, req: Request, s1: Sys, th1: Thread)
    requires Point(env, c, now, s, req, s1.db, th1) && th1.DropPeerFound?
    ensures var (s2, th2) := Step(env, c, now, s1, th1); Point(env, c, now, s, req, s2.db, th2)
  {
    hide Purge, DeleteRulesFrom, RulesFrom, StepJoin, StepRule, StepDevice, StepStarted;
  }

  lemma SelectedPoint(env: Env, c: Cidr, now: int, s: Sys, req: Request, s1: Sys, th1: Thread)
    requires Point(env, c, now, s, req, s1.db, th1) && (th1.DropPeerUnwired? || th1.DropPeerSelected?)
    ensures var (s2, th2) := Step(env, c, now, s1, th1); Point(env, c, now, s, req, s2.db, th2)
  {
    hide RemovePeer, Purge, DeleteRulesFrom, RulesFrom, Removable, StepJoin, StepRule, StepDevice, StepStarted;
  }

  lemma PurgingPoint(env: Env, c: Cidr, now: int, s: Sys, req: Request, s1: Sys, th1: Thread)
    requires Point(env, c, now, s, req, s1.db, th1) && th1.DropPeerPurging?
    ensures var (s2, th2) := Step(env, c, now, s1, th1); Point(env, c, now, s, req, s2.db, th2)
  {
    hide RemovePeer, Purge, WithoutRules, Removable, DeletePeerRow, StepJoin, StepRule, StepDevice,
      StepStarted;
    PurgeTables(env, s1, th1.name, th1.rows);
  }

  lemma FirstPoint(env: Env, c: Cidr, now: int, s: Sys, req: Request, s1: Sys, th1: Thread)
    requires Point(env, c, now, s, req, s1.db, th1) && th1.Started?
    ensures var (s2, th2) := Step(env, c, now, s1, th1); Point(env, c, now, s, req, s2.db, th2)
  {
    hide Acceptable, InsertRule, CodeByUser, CodeByDevice, VerifyRefusal, StepJoin, StepRule, StepDevice, StepDropPeer;
  }

  lemma DevicePoint(env: Env, c: Cidr, now: int, s: Sys, req: Request, s1: Sys, th1: Thread)
    requires Point(env, c, now, s, req, s1.db, th1)
    requires !th1.Started? && !InJoin(th1) && !InRule(th1) && !InDropPeer(th1)
    ensures var (s2, th2) := Step(env, c, now, s1, th1); Point(env, c, now, s, req, s2.db, th2)
  {
    hide InsertCode, VerifyAct, VerifyRefusal, TokenResponse, ViewResponse, CodeByUser, CodeByDevice, CleanExpired,
      StepJoin, StepRule, StepDropPeer, StepStarted;
  }

  lemma {:induction false} EveryPoint(env: Env, c: Cidr, now: int, s: Sys, req: Request, n: nat)
    ensures var (s1, th1) := After(env, c, now, s, req, n); Point(env, c, now, s, req, s1.db, th1)
  {
    hide Point, Step;
    if n == 0 {
      StartPoint(env, c, now, s, req);
    } else {
      EveryPoint(env, c, now, s, req, n - 1);
      var (s1, th1) := After(env, c, now, s, req, n - 1);
      PointStep(env, c, now, s, req, s1, th1);
    }
  }

  lemma StartPoint(env: Env, c: Cidr, now: int, s: Sys, req: Request)
    ensures Point(env, c, now, s, req, s.db, Started(req))
  {
  }

  // ----- The last statement of a handler that writes the tables -----

  predicate Settled(th: Thread) { th.Done? || th.JoinStored? || th.RuleStored? }

  /** From these points on the tables stay as they are, so they are already the final ones. */
  lemma TablesSettled(env: Env, c: Cidr, now: int, s1: Sys, th1: Thread)
    requires Settled(th1)
    ensures Solo(env, c, now, s1, th1).0.db == s1.db
  {
  }

  lemma SettledIsFinal(env: Env, c: Cidr, now: int, s: Sys, req: Request, n: nat)
    ensures var (s1, th1) := After(env, c, now, s, req, n);
            Settled(th1) ==> s1.db == Effect(env, c, now, s, req).0.db
  {
    hide Effect, Solo, After;
    RestOfHandler(env, c, now, s, req, n);
    var (s1, th1) := After(env, c, now, s, req, n);
    if Settled(th1) {
      TablesSettled(env, c, now, s1, th1);
    }
  }

  /**
    At any point of any handler the tables are those before the request or those after it, except
    that a join may have consumed its token, and a DeletePeer that will succeed may have deleted
    the rules of the peer.
   */
  lemma TablesAtPoint(env: Env, c: Cidr, now: int, s: Sys, req: Request, n: nat)
    ensures var t := After(env, c, now, s, req, n).0.db;
            || t == s.db
            || t == Effect(env, c, now, s, req).0.db
            || (req.Join? && t == Consume(s.db, req.token, now))
            || (req.DropPeer? && Removable(env, s, req.name) && t == WithoutRules(s, req.name))
  {
    hide Effect, After, Consume, WithoutRules, Removable, Untouched;
    EveryPoint(env, c, now, s, req, n);
    SettledIsFinal(env, c, now, s, req, n);
  }
}
