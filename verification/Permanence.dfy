/** Rows that can be removed, and rows that nothing ever removes. */
module Permanence {
  import opened NetIP
  import opened Subnets
  import opened Allocator
  import opened Tables
  import opened Kernel
  import opened Handlers
  import opened CrashPoints
  import opened RuleSync
  import opened PeerSync
  import opened Runs

  // ----- Peers -----

  lemma EnrolNames(env: Env, c: Cidr, s: Sys, publicKey: string, name: string)
    requires "" !in s.db.peers
    ensures "" !in Enrol(env, c, s, publicKey, name).0.db.peers
  {
    hide Allocate, AddPeer, IPTaken;
  }

  lemma EffectNames(env: Env, c: Cidr, now: int, s: Sys, req: Request)
    requires "" !in s.db.peers
    ensures "" !in Effect(env, c, now, s, req).0.db.peers
  {
    if req.Join? {
      EnrolNames(env, c, s.(db := Consume(s.db, req.token, now)), req.publicKey, req.name);
      hide Enrol, HasRedeemable;
    } else if req.DropPeer? {
      hide KeysOf;
    } else {
      OthersKeepPeers(env, c, now, s, req);
      hide Effect;
    }
  }

  lemma StepNames(env: Env, c: Cidr, s: Sys, op: Op, t: Sys)
    requires "" !in s.db.peers && Leads(env, c, s, op, t)
    ensures "" !in t.db.peers
  {
    hide Effect, After, RestorePeers, RestoreRules, Orders;
    if !op.Restart? {
      EffectNames(env, c, op.now, s, op.req);
      if op.CrashIn? {
        TablesAtPoint(env, c, op.now, s, op.req, op.n);
      }
    }
  }

  /** No peer ever has an empty name, so DeletePeer can be addressed to each of them. */
  lemma {:induction false} NamesNotEmpty(env: Env, c: Cidr, states: seq<Sys>, ops: seq<Op>, i: nat)
    requires Run(env, c, states, ops) && states[0] == INITIAL && i < |states|
    ensures "" !in states[i].db.peers
  {
    hide Leads;
    if i == 0 {
    } else {
      NamesNotEmpty(env, c, states, ops, i - 1);
      RunStep(env, c, states, ops, i - 1);
      StepNames(env, c, states[i - 1], ops[i - 1], states[i]);
    }
  }

  lemma UndecodableStaysIn(env: Env, c: Cidr, now: int, s: Sys, req: Request, name: string)
    requires name in s.db.peers && env.decodeKey(s.db.peers[name].publicKey).None?
    ensures var peers := Effect(env, c, now, s, req).0.db.peers; name in peers && peers[name] == s.db.peers[name]
  {
    if req.Join? {
      JoinAddsOne(env, c, now, s, req);
      hide Effect;
    } else if !req.DropPeer? {
      OthersKeepPeers(env, c, now, s, req);
      hide Effect;
    } else {
      hide KeysOf;
    }
  }

  lemma UndecodableStays(env: Env, c: Cidr, s: Sys, op: Op, t: Sys, name: string)
    requires name in s.db.peers && env.decodeKey(s.db.peers[name].publicKey).None?
    requires Leads(env, c, s, op, t)
    ensures name in t.db.peers && t.db.peers[name] == s.db.peers[name]
  {
    if op.Handle? {
      UndecodableStaysIn(env, c, op.now, s, op.req, name);
      hide Effect;
    } else {
      hide RestorePeers, RestoreRules, After, Effect;
      if op.CrashIn? {
        UndecodableStaysIn(env, c, op.now, s, op.req, name);
        TablesAtPoint(env, c, op.now, s, op.req, op.n);
      }
    }
  }

  lemma DropUndecodable(env: Env, s: Sys, name: string)
    requires name in s.db.peers && env.decodeKey(s.db.peers[name].publicKey).None?
    ensures DropPeerEffect(env, s, name).0 == s && DropPeerEffect(env, s, name).1 != NoContent
  {
  }

  /** In every reachable state, some request removes a stored peer exactly if its public key decodes. */
  lemma PeerIsRemovableIff(env: Env, c: Cidr, states: seq<Sys>, ops: seq<Op>, i: nat, name: string)
    requires Run(env, c, states, ops) && states[0] == INITIAL && i < |states| && name in states[i].db.peers
    ensures (exists now: int, req :: name !in Effect(env, c, now, states[i], req).0.db.peers)
       <==> env.decodeKey(states[i].db.peers[name].publicKey).Some?
  {
    NamesNotEmpty(env, c, states, ops, i);
    var s := states[i];
    hide Run;
    DropPeerSucceedsIff(env, s, name);
    assert Effect(env, c, 0, s, DropPeer(name)) == DropPeerEffect(env, s, name) by { hide DropPeerEffect; }
    hide Effect, DropPeerEffect;
    if env.decodeKey(s.db.peers[name].publicKey).None? {
      forall now: int, req ensures name in Effect(env, c, now, s, req).0.db.peers {
        UndecodableStaysIn(env, c, now, s, req, name);
      }
    }
  }

  /**
    A peer whose public key does not decode stays for good: its enrolment fails after the row has
    been stored, DeletePeer fails before touching it, and every restart skips it.
   */
  lemma {:induction false} UndecodableIsPermanent(
    env: Env, c: Cidr, states: seq<Sys>, ops: seq<Op>, i: nat, j: nat, name: string)
    requires Run(env, c, states, ops) && i <= j < |states|
    requires name in states[i].db.peers && env.decodeKey(states[i].db.peers[name].publicKey).None?
    ensures name in states[j].db.peers && states[j].db.peers[name] == states[i].db.peers[name]
    ensures DropPeerEffect(env, states[j], name).0 == states[j] && DropPeerEffect(env, states[j], name).1 != NoContent
    decreases j
  {
    hide Leads;
    if i == j {
    } else {
      hide DropPeerEffect;
      UndecodableIsPermanent(env, c, states, ops, i, j - 1, name);
      RunStep(env, c, states, ops, j - 1);
      UndecodableStays(env, c, states[j - 1], ops[j - 1], states[j], name);
    }
    DropUndecodable(env, states[j], name);
  }

  // ----- Rules -----

  /** The requests that remove a rule. */
  lemma RuleRemoved(env: Env, c: Cidr, now: int, s: Sys, req: Request, id: nat)
    requires id in s.db.rules
    ensures id !in Effect(env, c, now, s, req).0.db.rules
       <==> || (req == DropRule(id) && Deletable(env, s.db.rules[id]))
            || (req.DropPeer? && req.name in s.db.peers && Removable(env, s, req.name)
                && s.db.peers[req.name].assignedIP == s.db.rules[id].srcIP)
  {
    hide ParseIP, RuleKeyBytes, KeysOf;
    if req.CreateRule? {
      hide Acceptable, AddRule, Normalized;
    } else if req.DropRule? || req.DropPeer? {
    } else {
      OthersKeepRules(env, c, now, s, req);
      hide Effect;
    }
  }

  /** Some request removes a stored rule exactly if DeleteRule can, or DeletePeer of the peer that it is from. */
  lemma RuleIsRemovableIff(env: Env, c: Cidr, s: Sys, id: nat)
    requires id in s.db.rules
    ensures (exists now: int, req :: id !in Effect(env, c, now, s, req).0.db.rules)
       <==> Deletable(env, s.db.rules[id])
              || exists n :: n in s.db.peers && Removable(env, s, n)
                          && s.db.peers[n].assignedIP == s.db.rules[id].srcIP
  {
    hide Effect, Deletable, Removable;
    if Deletable(env, s.db.rules[id]) {
      RuleRemoved(env, c, 0, s, DropRule(id), id);
    }
    if n :| n in s.db.peers && Removable(env, s, n) && s.db.peers[n].assignedIP == s.db.rules[id].srcIP {
      RuleRemoved(env, c, 0, s, DropPeer(n), id);
    }
    if now: int, req :| id !in Effect(env, c, now, s, req).0.db.rules {
      RuleRemoved(env, c, now, s, req, id);
      if req.DropPeer? {
        var n := req.name;
        assert n in s.db.peers && Removable(env, s, n) && s.db.peers[n].assignedIP == s.db.rules[id].srcIP;
      }
    }
  }

  /** A rule that CreateRule accepts, from an address no peer can have, without a key: IPv6 is involved. */
  ghost predicate Unmappable(env: Env, c: Cidr, r: RuleRow) { !Deletable(env, r) && !AllocatableText(c, r.srcIP) }

  lemma NotFromAPeer(env: Env, c: Cidr, s: Sys, id: nat, name: string)
    requires Inv(env, c, s) && id in s.db.rules && Unmappable(env, c, s.db.rules[id]) && name in s.db.peers
    ensures s.db.rules[id].srcIP != s.db.peers[name].assignedIP
  {
    hide AllocatableText, ParseIP, RuleKeyBytes, Sound, Valid;
  }

  lemma UnmappableStaysIn(env: Env, c: Cidr, now: int, s: Sys, req: Request, id: nat)
    requires Inv(env, c, s) && id in s.db.rules && Unmappable(env, c, s.db.rules[id])
    ensures var rules := Effect(env, c, now, s, req).0.db.rules; id in rules && rules[id] == s.db.rules[id]
  {
    hide AllocatableText, ParseIP, RuleKeyBytes, KeysOf, Sound;
    if req.CreateRule? {
      hide Acceptable, AddRule, Normalized;
    } else if req.DropRule? {
    } else if req.DropPeer? {
      if req.name in s.db.peers {
        NotFromAPeer(env, c, s, id, req.name);
      }
      hide Inv, Unmappable, RemovePeer;
    } else {
      OthersKeepRules(env, c, now, s, req);
      hide Effect;
    }
  }

  lemma UnmappableStays(env: Env, c: Cidr, s: Sys, op: Op, t: Sys, id: nat)
    requires Inv(env, c, s) && id in s.db.rules && Unmappable(env, c, s.db.rules[id]) && Leads(env, c, s, op, t)
    ensures id in t.db.rules && t.db.rules[id] == s.db.rules[id]
  {
    hide Unmappable, Inv;
    if op.Handle? {
      UnmappableStaysIn(env, c, op.now, s, op.req, id);
      hide Effect;
    } else {
      hide RestorePeers, RestoreRules, After, Effect;
      if op.CrashIn? {
        UnmappableStaysIn(env, c, op.now, s, op.req, id);
        TablesAtPoint(env, c, op.now, s, op.req, op.n);
        if op.req.DropPeer? && op.req.name in s.db.peers {
          NotFromAPeer(env, c, s, id, op.req.name);
        }
      }
    }
  }

  lemma DropUnmappable(env: Env, c: Cidr, s: Sys, id: nat)
    requires id in s.db.rules && Unmappable(env, c, s.db.rules[id])
    ensures DropRuleEffect(env, s, id) == (s, ServerError)
  {
    hide AllocatableText, ParseIP, RuleKeyBytes;
  }

  /**
    Such a rule stays for good: DeleteRule stops at the failing map removal, and no DeletePeer
    selects it. CreateRule stores it although it answers with an error (StoredThoughRefused).
   */
  lemma {:induction false} UnmappableIsPermanent(
    env: Env, c: Cidr, states: seq<Sys>, ops: seq<Op>, i: nat, j: nat, id: nat)
    requires Run(env, c, states, ops) && states[0] == INITIAL && i <= j < |states|
    requires id in states[i].db.rules && Unmappable(env, c, states[i].db.rules[id])
    ensures id in states[j].db.rules && states[j].db.rules[id] == states[i].db.rules[id]
    ensures DropRuleEffect(env, states[j], id) == (states[j], ServerError)
    decreases j
  {
    hide Leads, Unmappable, Inv, DropRuleEffect;
    if i == j {
    } else {
      UnmappableIsPermanent(env, c, states, ops, i, j - 1, id);
      RunStep(env, c, states, ops, j - 1);
      EveryRunIsSound(env, c, states, ops, j - 1);
      UnmappableStays(env, c, states[j - 1], ops[j - 1], states[j], id);
    }
    DropUnmappable(env, c, states[j], id);
  }
}
