/** Crashes: a handler stops between two of its steps, and the server starts again. */
module Crash {
  import opened NetIP
  import opened Sets
  import opened Subnets
  import opened Tables
  import opened Kernel
  import opened Handlers
  import opened CrashPoints
  import opened RuleSync
  import opened PeerSync
  import opened Runs

  // ----- Restarting -----

  /** Decoded public keys are distinct, and there are no more rule keys than the map holds. */
  ghost predicate Restorable(env: Env, db: Tables) {
    DistinctPeerKeys(env, db.peers) && |KeysOf(env, db.rules)| <= MAX_ENTRIES
  }

  /** Startup reaches agreement exactly from restorable tables, whatever was live before. */
  lemma RestartAgreesIff(env: Env, c: Cidr, db: Tables, ps: PeerRows, rs: RuleRows)
    requires Valid(db) && PeersFit(c, db.peers) && Orders(db, ps, rs)
    ensures var t := Restore(env, db, ps, rs); Inv(env, c, t) && (Agreed(env, t) <==> Restorable(env, db))
  {
    hide Valid, PeersFit, Agrees, Sound, DeviceAgrees, DistinctPeerKeys, KeysOf, Enumerates;
    RestoreDeviceIff(env, c, ps, db.peers);
    RestoreAgreesIff(env, rs, db.rules);
  }

  /** Running the restore again, with the rows in any other order, changes nothing. */
  lemma RestartTwice(env: Env, c: Cidr, db: Tables, ps: PeerRows, rs: RuleRows, ps': PeerRows, rs': RuleRows)
    requires Valid(db) && PeersFit(c, db.peers) && Orders(db, ps, rs) && Orders(db, ps', rs')
    requires Restorable(env, db)
    ensures Restore(env, Restore(env, db, ps, rs).db, ps', rs') == Restore(env, db, ps, rs)
  {
    hide Valid, PeersFit, Inv, Agreed, Restorable, Enumerates;
    RestartAgreesIff(env, c, db, ps, rs);
    AgreedIsRestored(env, c, Restore(env, db, ps, rs), ps', rs');
  }

  lemma AgreedIsRestorable(env: Env, c: Cidr, s: Sys)
    requires Inv(env, c, s) && Agreed(env, s)
    ensures Restorable(env, s.db)
  {
    AgreementNeedsDistinct(env, c, s.wg, s.db.peers);
    hide KeysOf;
  }

  /** Startup takes the tables of an agreed state to that state. */
  lemma RestartOf(env: Env, c: Cidr, s: Sys, db: Tables, ps: PeerRows, rs: RuleRows)
    requires Inv(env, c, s) && Agreed(env, s) && db == s.db && Orders(db, ps, rs)
    ensures Restore(env, db, ps, rs) == s
  {
    hide Inv, Agreed, Enumerates, RestorePeers, RestoreRules;
    AgreedIsRestored(env, c, s, ps, rs);
  }

  // ----- Crash healing -----

  lemma FewerKeys(env: Env, all: map<nat, RuleRow>, some: map<nat, RuleRow>)
    requires forall i :: i in some ==> i in all && some[i] == all[i]
    ensures KeysOf(env, some) <= KeysOf(env, all) && |KeysOf(env, some)| <= |KeysOf(env, all)|
  {
    hide RuleKeyBytes;
    assert KeysOf(env, some) <= KeysOf(env, all);
    SubsetSize(KeysOf(env, some), KeysOf(env, all));
  }

  /** The tables of every crash point are restorable if those before and after the request are. */
  lemma PointIsRestorable(env: Env, c: Cidr, now: int, s: Sys, req: Request, n: nat)
    requires Restorable(env, s.db) && Restorable(env, Effect(env, c, now, s, req).0.db)
    ensures Restorable(env, After(env, c, now, s, req, n).0.db)
  {
    hide Effect, After, KeysOf, DistinctPeerKeys;
    TablesAtPoint(env, c, now, s, req, n);
    if req.DropPeer? && req.name in s.db.peers {
      FewerKeys(env, s.db.rules, WithoutRules(s, req.name).rules);
    }
  }

  lemma CrashedIsValid(env: Env, c: Cidr, now: int, s: Sys, req: Request, n: nat)
    requires Inv(env, c, s)
    ensures var db := After(env, c, now, s, req, n).0.db; Valid(db) && PeersFit(c, db.peers)
  {
    hide Valid, PeersFit, Sound, After;
    LeftIsValid(env, c, s, CrashIn(now, req, n, [], []));
  }

  /**
    Crash healing: wherever any handler stops, and whatever the device and the map held, startup
    keeps the invariant and brings both into agreement with the tables that the handler left,
    exactly if these are restorable; they are if the tables before and after the request are.
   */
  lemma CrashHeals(env: Env, c: Cidr, now: int, s: Sys, req: Request, n: nat, ps: PeerRows, rs: RuleRows)
    requires Inv(env, c, s) && Orders(After(env, c, now, s, req, n).0.db, ps, rs)
    ensures var left := After(env, c, now, s, req, n).0.db;
            var t := Restore(env, left, ps, rs);
            && Inv(env, c, t)
            && (Agreed(env, t) <==> Restorable(env, left))
            && (Restorable(env, s.db) && Restorable(env, Effect(env, c, now, s, req).0.db) ==> Agreed(env, t))
  {
    hide Inv, Agreed, Restorable, Effect, After, Restore, Orders, Valid, PeersFit;
    if Restorable(env, s.db) && Restorable(env, Effect(env, c, now, s, req).0.db) {
      PointIsRestorable(env, c, now, s, req, n);
    }
    CrashedIsValid(env, c, now, s, req, n);
    RestartAgreesIff(env, c, After(env, c, now, s, req, n).0.db, ps, rs);
  }

  // ----- Where a crash leaves each handler -----

  /** Before and after the request, rule keys are distinct and fit the map, and decoded public keys are distinct. */
  ghost predicate StaysDistinct(env: Env, before: Tables, after: Tables) {
    RulesFit(env, before.rules) && RulesFit(env, after.rules) && DistinctPeerKeys(env, after.peers)
  }

  lemma CompletionAgrees(env: Env, c: Cidr, now: int, s: Sys, req: Request)
    requires Inv(env, c, s) && Agreed(env, s)
    requires StaysDistinct(env, s.db, Effect(env, c, now, s, req).0.db)
    ensures var t := Effect(env, c, now, s, req).0; Inv(env, c, t) && Agreed(env, t)
  {
    var op, t := Handle(now, req), Effect(env, c, now, s, req).0;
    assert Leads(env, c, s, op, t);
    hide Effect, Leads, RulesFit, DistinctPeerKeys, Agrees, DeviceAgrees, Valid, PeersFit, Sound;
    StepKeepsInv(env, c, s, op, t);
    StepKeepsRuleAgreement(env, c, s, op, t);
    StepKeepsDeviceAgreement(env, c, s, op, t);
  }

  /**
    A crash between any two steps of CreateRule or DeleteRule, followed by startup, gives either
    the state before the request or the state of the completed request.
   */
  lemma RuleHandlersAreAtomic(env: Env, c: Cidr, now: int, s: Sys, req: Request, n: nat, ps: PeerRows, rs: RuleRows)
    requires req.CreateRule? || req.DropRule?
    requires Inv(env, c, s) && Agreed(env, s)
    requires StaysDistinct(env, s.db, Effect(env, c, now, s, req).0.db)
    requires Orders(After(env, c, now, s, req, n).0.db, ps, rs)
    ensures var restored := Restore(env, After(env, c, now, s, req, n).0.db, ps, rs);
            restored == s || restored == Effect(env, c, now, s, req).0
  {
    hide Inv, Agreed, Effect, After, Restore, Orders, StaysDistinct;
    CompletionAgrees(env, c, now, s, req);
    TablesAtPoint(env, c, now, s, req, n);
    var db := After(env, c, now, s, req, n).0.db;
    if db == s.db {
      RestartOf(env, c, s, db, ps, rs);
    } else {
      RestartOf(env, c, Effect(env, c, now, s, req).0, db, ps, rs);
    }
  }

  /**
    A crash between any two steps of JoinHandler, followed by startup, gives the state before the
    request, that state without the token, or the state of the completed request.
   */
  lemma JoinCrashes(env: Env, c: Cidr, now: int, s: Sys, req: Request, n: nat, ps: PeerRows, rs: RuleRows)
    requires req.Join?
    requires Inv(env, c, s) && Agreed(env, s)
    requires StaysDistinct(env, s.db, Effect(env, c, now, s, req).0.db)
    requires Orders(After(env, c, now, s, req, n).0.db, ps, rs)
    ensures var restored := Restore(env, After(env, c, now, s, req, n).0.db, ps, rs);
            || restored == s
            || restored == s.(db := Consume(s.db, req.token, now))
            || restored == Effect(env, c, now, s, req).0
  {
    hide Inv, Agreed, Effect, After, Restore, Orders, Consume, StaysDistinct;
    CompletionAgrees(env, c, now, s, req);
    TablesAtPoint(env, c, now, s, req, n);
    var db := After(env, c, now, s, req, n).0.db;
    if db == s.db {
      RestartOf(env, c, s, db, ps, rs);
    } else if db == Consume(s.db, req.token, now) {
      WithoutToken(env, c, s, req.token, now);
      RestartOf(env, c, s.(db := db), db, ps, rs);
    } else {
      RestartOf(env, c, Effect(env, c, now, s, req).0, db, ps, rs);
    }
  }

  lemma WithoutToken(env: Env, c: Cidr, s: Sys, token: string, now: int)
    requires Inv(env, c, s) && Agreed(env, s)
    ensures var t := s.(db := Consume(s.db, token, now)); Inv(env, c, t) && Agreed(env, t)
  {
  }

  /** The half-way tables of DeletePeer, and what is left to do from there. */
  lemma HalfDeleted(env: Env, c: Cidr, s: Sys, name: string, half: Sys)
    requires Inv(env, c, s) && Removable(env, s, name) && half.db == WithoutRules(s, name)
    ensures Valid(half.db) && PeersFit(c, half.db.peers) && half.db.peers == s.db.peers
    ensures half.db.rules == DropPeerEffect(env, s, name).0.db.rules
    ensures DropPeerEffect(env, half, name).1 == NoContent
    ensures DropPeerEffect(env, half, name).0.db == DropPeerEffect(env, s, name).0.db
    ensures DropPeerEffect(env, half, name).0.xdp == half.xdp
    ensures half.wg == s.wg ==> DropPeerEffect(env, half, name).0.wg == DropPeerEffect(env, s, name).0.wg
  {
    hide PeersFit, Sound, UniqueIPs, UniqueUserCodes, KeysOf;
    NoRulesLeft(s.db, half.db, s.db.peers[name].assignedIP);
    PurgeNone(env, half.xdp);
    hide RulesFrom;
  }

  lemma NoRulesLeft(t: Tables, half: Tables, ip: string)
    requires half == DeleteRulesFrom(t, ip)
    ensures RulesFrom(half, ip) == map[] && DeleteRulesFrom(half, ip) == half
  {
    assert half.rules == DeleteRulesFrom(half, ip).rules;
  }

  lemma DropPeerIs(env: Env, c: Cidr, now: int, s: Sys, name: string)
    ensures Effect(env, c, now, s, DropPeer(name)) == DropPeerEffect(env, s, name)
  {
  }

  /** A DeletePeer that leaves the peer in the table, or that does not find it, changes nothing. */
  lemma DropPeerFails(env: Env, s: Sys, name: string)
    requires name !in s.db.peers || name in DropPeerEffect(env, s, name).0.db.peers
    ensures DropPeerEffect(env, s, name).0 == s
  {
    hide KeysOf;
  }

  lemma AgreesIsSound(env: Env, m: RuleMap, rules: map<nat, RuleRow>)
    requires Agrees(env, m, rules)
    ensures Sound(env, m, rules)
  {
  }

  lemma DropPeerAgrees(env: Env, s: Sys, name: string)
    requires Agrees(env, s.xdp, s.db.rules) && DistinctKeys(env, s.db.rules)
    ensures var t := DropPeerEffect(env, s, name).0; Agrees(env, t.xdp, t.db.rules)
  {
    hide Agrees, DistinctKeys, DropPeerEffect;
    DistinctDeletes(env, BadCidr, 0, s, DropPeer(name));
  }

  lemma CompletedAgrees(env: Env, c: Cidr, s: Sys, name: string)
    requires Inv(env, c, s) && Agreed(env, s) && DistinctKeys(env, s.db.rules)
    ensures var t := DropPeerEffect(env, s, name).0; Inv(env, c, t) && Agreed(env, t)
  {
    hide PeersFit, Sound, DeviceAgrees, UniqueIPs, UniqueUserCodes, UniqueRules, Agrees, KeysOf, DistinctKeys;
    AgreesIsSound(env, s.xdp, s.db.rules);
    DropPeerKeepsDevice(env, c, s, name);
    DropPeerKeeps(env, s, name);
    DropPeerKeepsValid(env, c, s, name);
    DropPeerAgrees(env, s, name);
  }

  lemma RetryFromHalf(env: Env, c: Cidr, s: Sys, name: string, db: Tables, ps: PeerRows, rs: RuleRows)
    requires Inv(env, c, s) && Agreed(env, s) && DistinctKeys(env, s.db.rules)
    requires Removable(env, s, name) && db == WithoutRules(s, name) && Orders(db, ps, rs)
    ensures var restored := Restore(env, db, ps, rs);
            name in restored.db.peers && DropPeerEffect(env, restored, name).0 == DropPeerEffect(env, s, name).0
  {
    var half, completed := Restore(env, db, ps, rs), DropPeerEffect(env, s, name).0;
    HalfDeleted(env, c, s, name, half);
    CompletedAgrees(env, c, s, name);
    hide DropPeerEffect, PeersFit, Sound, DistinctKeys, DeviceAgrees, Enumerates, KeysOf, WithoutRules, UniqueIPs,
      UniqueRules;
    AgreementNeedsDistinct(env, c, s.wg, s.db.peers);
    RestoreDeviceIff(env, c, ps, db.peers);
    DeviceIsUnique(env, half.wg, s.wg, s.db.peers);
    RestoreAgreesIff(env, rs, db.rules);
    AgreementIsUnique(env, half.xdp, completed.xdp, db.rules);
  }

  /**
    A crash at any point of any DeletePeer, followed by startup: either the restored state is that
    of the completed request, or sending the request again leads to exactly that state. A request
    that fails has nothing to complete.
   */
  lemma DropPeerCanBeRetried(env: Env, c: Cidr, now: int, s: Sys, name: string, n: nat, ps: PeerRows, rs: RuleRows)
    requires Inv(env, c, s) && Agreed(env, s) && DistinctKeys(env, s.db.rules)
    requires Orders(After(env, c, now, s, DropPeer(name), n).0.db, ps, rs)
    ensures var restored := Restore(env, After(env, c, now, s, DropPeer(name), n).0.db, ps, rs);
            var completed := DropPeerEffect(env, s, name).0;
            && Inv(env, c, restored) && Agreed(env, restored)
            && (if name in restored.db.peers then DropPeerEffect(env, restored, name).0 == completed
                else restored == completed)
  {
    hide DropPeerEffect, Inv, Agreed, DistinctKeys, Orders, Effect, After, Restore, Restorable, Removable, WithoutRules;
    var req := DropPeer(name);
    var completed := DropPeerEffect(env, s, name).0;
    var db := After(env, c, now, s, req, n).0.db;
    DropPeerIs(env, c, now, s, name);
    TablesAtPoint(env, c, now, s, req, n);
    CompletedAgrees(env, c, s, name);
    AgreedIsRestorable(env, c, s);
    AgreedIsRestorable(env, c, completed);
    CrashHeals(env, c, now, s, req, n, ps, rs);
    if db == s.db {
      RestartOf(env, c, s, db, ps, rs);
      if name !in s.db.peers {
        DropPeerFails(env, s, name);
      }
    } else if db == completed.db {
      RestartOf(env, c, completed, db, ps, rs);
      if name in completed.db.peers {
        DropPeerFails(env, s, name);
      }
    } else {
      RetryFromHalf(env, c, s, name, db, ps, rs);
    }
  }
}
