/** Runs of whole handlers and restarts, and what holds in every state of every run. */
module Runs {
  import opened Words
  import opened DottedQuad
  import opened NetIP
  import opened Sets
  import opened Subnets
  import opened Allocator
  import opened Tables
  import opened Kernel
  import opened Handlers
  import opened CrashPoints
  import opened RuleSync
  import opened PeerSync

  type PeerRows = seq<(string, PeerRow)>
  type RuleRows = seq<(nat, RuleRow)>

  /** A whole handler, a restart, or a handler that stops after n of its steps because the server restarts. */
  datatype Op =
    | Handle(now: int, req: Request)
    | Restart(peerRows: PeerRows, ruleRows: RuleRows)
    | CrashIn(now: int, req: Request, n: nat, peerRows: PeerRows, ruleRows: RuleRows)

  /** Startup: the device is recreated without peers, the map is fresh, and both are filled from the tables. */
  function Restore(env: Env, db: Tables, peerRows: PeerRows, ruleRows: RuleRows): Sys {
    Sys(db, RestorePeers(env, peerRows, map[]), RestoreRules(env, ruleRows, map[]))
  }

  /** The rows that startup's two queries may return: all of them, in some order. */
  ghost predicate Orders(db: Tables, ps: PeerRows, rs: RuleRows) {
    Enumerates(ps, db.peers) && Enumerates(rs, db.rules)
  }

  /** The tables that a restart or a crash leaves behind. */
  ghost function TablesLeft(env: Env, c: Cidr, s: Sys, op: Op): Tables {
    if op.CrashIn? then After(env, c, op.now, s, op.req, op.n).0.db else s.db
  }

  ghost predicate ValidOp(env: Env, c: Cidr, s: Sys, op: Op) {
    !op.Handle? ==> Orders(TablesLeft(env, c, s, op), op.peerRows, op.ruleRows)
  }

  ghost function Apply(env: Env, c: Cidr, s: Sys, op: Op): Sys {
    if op.Handle? then Effect(env, c, op.now, s, op.req).0
    else Restore(env, TablesLeft(env, c, s, op), op.peerRows, op.ruleRows)
  }

  ghost predicate Leads(env: Env, c: Cidr, s: Sys, op: Op, t: Sys) {
    ValidOp(env, c, s, op) && t == Apply(env, c, s, op)
  }

  ghost predicate Run(env: Env, c: Cidr, states: seq<Sys>, ops: seq<Op>) {
    |states| == |ops| + 1 && forall i :: 0 <= i < |ops| ==> Leads(env, c, states[i], ops[i], states[i + 1])
  }

  lemma RunStep(env: Env, c: Cidr, states: seq<Sys>, ops: seq<Op>, i: nat)
    requires Run(env, c, states, ops) && i < |ops|
    ensures |states| == |ops| + 1
    ensures Leads(env, c, states[i], ops[i], states[i + 1])
  {
  }

  /** A server on an empty database. */
  const INITIAL := Sys(EMPTY, map[], map[])

  // ----- What every run keeps without further assumptions -----

  ghost predicate Inv(env: Env, c: Cidr, s: Sys) {
    Valid(s.db) && PeersFit(c, s.db.peers) && Sound(env, s.xdp, s.db.rules)
  }

  lemma CodesKeepValid(s: Sys, req: Request, env: Env, c: Cidr, now: int)
    requires Valid(s.db) && !req.Join? && !req.DropPeer? && !req.CreateRule? && !req.DropRule?
    ensures Valid(Effect(env, c, now, s, req).0.db)
  {
    hide CodeByUser, VerifyRefusal, TokenResponse, ViewResponse, UniqueIPs, UniqueRules, HasPending;
  }

  lemma RulesKeepValid(s: Sys, req: Request, env: Env, c: Cidr, now: int)
    requires Valid(s.db) && (req.CreateRule? || req.DropRule?)
    ensures Valid(Effect(env, c, now, s, req).0.db)
  {
    hide Acceptable, AddRule, Unmap, UniqueIPs, UniqueUserCodes, Normalized;
  }

  lemma PeersKeepValid(s: Sys, req: Request, env: Env, c: Cidr, now: int)
    requires Valid(s.db) && PeersFit(c, s.db.peers) && (req.Join? || req.DropPeer?)
    ensures Valid(Effect(env, c, now, s, req).0.db) && PeersFit(c, Effect(env, c, now, s, req).0.db.peers)
  {
    hide Valid, PeersFit, JoinEffect, DropPeerEffect;
    if req.Join? {
      JoinKeepsValid(env, c, now, s, req.token, req.publicKey, req.name);
    } else {
      DropPeerKeepsValid(env, c, s, req.name);
    }
  }

  lemma JoinKeepsValid(env: Env, c: Cidr, now: int, s: Sys, token: string, publicKey: string, name: string)
    requires Valid(s.db) && PeersFit(c, s.db.peers)
    ensures var t := JoinEffect(env, c, now, s, token, publicKey, name).0; Valid(t.db) && PeersFit(c, t.db.peers)
  {
    hide HasRedeemable, Enrol, PeersFit, UniqueIPs, UniqueRules;
    EnrolKeepsValid(env, c, s.(db := Consume(s.db, token, now)), publicKey, name);
  }

  lemma DropPeerKeepsValid(env: Env, c: Cidr, s: Sys, name: string)
    requires Valid(s.db) && PeersFit(c, s.db.peers)
    ensures var t := DropPeerEffect(env, s, name).0; Valid(t.db) && PeersFit(c, t.db.peers)
  {
  }

  lemma EnrolKeepsValid(env: Env, c: Cidr, s: Sys, publicKey: string, name: string)
    requires Valid(s.db) && PeersFit(c, s.db.peers)
    ensures var t := Enrol(env, c, s, publicKey, name).0; Valid(t.db) && PeersFit(c, t.db.peers)
  {
    hide AllocatableText, AddPeer, UniqueRules, UniqueUserCodes;
    var ip := Allocate(c, UsedIPs(s.db.peers));
    if ip.Some? {
      AllocatedIsFree(c, UsedIPs(s.db.peers));
      hide Allocate, UsedIPs, UniqueIPs;
      var peerName := PeerName(name, ip.value);
      if peerName !in s.db.peers {
        FitsAfterInsert(c, s.db.peers, peerName, PeerRow(publicKey, ip.value));
      }
      hide PeerName;
    }
  }

  lemma EffectKeepsTables(env: Env, c: Cidr, now: int, s: Sys, req: Request)
    requires Valid(s.db) && PeersFit(c, s.db.peers)
    ensures var t := Effect(env, c, now, s, req).0; Valid(t.db) && PeersFit(c, t.db.peers)
  {
    hide Valid, PeersFit;
    if req.Join? || req.DropPeer? {
      PeersKeepValid(s, req, env, c, now);
    } else {
      OthersKeepPeers(env, c, now, s, req);
      hide Effect;
      if req.CreateRule? || req.DropRule? {
        RulesKeepValid(s, req, env, c, now);
      } else {
        CodesKeepValid(s, req, env, c, now);
      }
    }
  }

  /** Tables that lack some codes or rules are as valid. */
  lemma HalfWayIsValid(c: Cidr, s: Sys, token: string, now: int, name: string)
    requires Valid(s.db) && PeersFit(c, s.db.peers)
    ensures var t := Consume(s.db, token, now); Valid(t) && PeersFit(c, t.peers)
    ensures name in s.db.peers ==> var t := WithoutRules(s, name); Valid(t) && PeersFit(c, t.peers)
  {
    hide Redeemable, PeersFit, UniqueIPs;
  }

  /** Wherever a handler stops, the tables that it leaves are valid. */
  lemma LeftIsValid(env: Env, c: Cidr, s: Sys, op: Op)
    requires Valid(s.db) && PeersFit(c, s.db.peers)
    ensures var t := TablesLeft(env, c, s, op); Valid(t) && PeersFit(c, t.peers)
  {
    hide Valid, PeersFit, After, Effect, Consume, WithoutRules;
    if op.CrashIn? {
      TablesAtPoint(env, c, op.now, s, op.req, op.n);
      EffectKeepsTables(env, c, op.now, s, op.req);
      HalfWayIsValid(c, s, if op.req.Join? then op.req.token else "", op.now,
                     if op.req.DropPeer? then op.req.name else "");
    }
  }

  lemma StepKeepsInv(env: Env, c: Cidr, s: Sys, op: Op, t: Sys)
    requires Inv(env, c, s) && Leads(env, c, s, op, t)
    ensures Inv(env, c, t)
  {
    hide Valid, PeersFit, Sound, RestorePeers, RestoreRules, TablesLeft, Effect;
    if op.Handle? {
      EffectKeepsSound(env, c, op.now, s, op.req);
      EffectKeepsTables(env, c, op.now, s, op.req);
    } else {
      LeftIsValid(env, c, s, op);
      RestoreAgreesIff(env, op.ruleRows, TablesLeft(env, c, s, op).rules);
    }
  }

  /**
    In every state of every run, whatever was requested (IPv6 text, ports and protocols out of
    range, other spellings of an address, more rules than the map holds) and however often the
    server restarted, also in the middle of a handler: UNIQUE constraints hold, every peer has its
    own allocatable address, and every entry of the rule map is the key of some row.
   */
  lemma {:induction false} EveryRunIsSound(env: Env, c: Cidr, states: seq<Sys>, ops: seq<Op>, i: nat)
    requires Run(env, c, states, ops) && states[0] == INITIAL && i < |states|
    ensures Inv(env, c, states[i])
  {
    hide Leads;
    if i == 0 {
    } else {
      hide Inv;
      EveryRunIsSound(env, c, states, ops, i - 1);
      RunStep(env, c, states, ops, i - 1);
      StepKeepsInv(env, c, states[i - 1], ops[i - 1], states[i]);
    }
  }

  /** With at least one allocatable address left, allocation succeeds; with none left, it fails. */
  lemma AllocationInRuns(env: Env, c: Cidr, s: Sys)
    requires Inv(env, c, s)
    ensures |s.db.peers| <= Capacity(c)
    ensures Allocate(c, UsedIPs(s.db.peers)).None? <==> |s.db.peers| == Capacity(c)
  {
    hide Allocate, AllocatableText, Capacity;
    AddressesCount(s.db.peers);
    FullIffAtCapacity(c, UsedIPs(s.db.peers));
  }

  lemma {:induction false} AddressesCount(peers: Peers)
    requires UniqueIPs(peers)
    ensures |UsedIPs(peers)| == |peers|
  {
    if peers == map[] {
      assert UsedIPs(peers) == {};
    } else {
      var n := SomeKey(peers);
      var rest := peers - {n};
      AddressesCount(rest);
      assert rest.Keys == peers.Keys - {n};
      AddressesSplit(peers, n);
    }
  }

  lemma AddressesSplit(peers: Peers, n: string)
    requires n in peers && UniqueIPs(peers)
    ensures UsedIPs(peers) == UsedIPs(peers - {n}) + {peers[n].assignedIP}
    ensures peers[n].assignedIP !in UsedIPs(peers - {n})
  {
    var rest := peers - {n};
    forall ip | ip in UsedIPs(peers) ensures ip in UsedIPs(rest) || ip == peers[n].assignedIP {
      var m :| m in peers && peers[m].assignedIP == ip;
      assert m == n || m in rest;
    }
  }

  lemma UsedAtMost(peers: Peers)
    ensures |UsedIPs(peers)| <= |peers|
  {
    var ips := map n | n in peers :: peers[n].assignedIP;
    assert ips.Keys == peers.Keys && |ips| == |ips.Keys| && |peers| == |peers.Keys|;
    assert UsedIPs(peers) == ips.Values;
    ValuesSize(ips);
  }

  /** For prefixes up to 30: as long as there are fewer than 2^(32-p) - 3 peers, a new one gets an address. */
  lemma RoomForPeers(c: Cidr, peers: Peers)
    requires c.Cidr4? && c.prefix <= 30 && |peers| < BlockSize(c) - 3
    ensures Allocate(c, UsedIPs(peers)).Some?
  {
    hide Allocate, BlockSize, Capacity, UsedIPs;
    UsedAtMost(peers);
    CapacityOfPrefix(c);
    Pigeonhole(c, UsedIPs(peers));
  }

  /** An enrolled peer's address is inside the subnet for the XDP program. */
  lemma EnrolledIsFiltered(env: Env, c: Cidr, s: Sys, name: string, a: U32)
    requires c.Cidr4? && Base(c) + 2 < 0x1_0000_0000
    requires Inv(env, c, s) && name in s.db.peers && s.db.peers[name].assignedIP == Print(a)
    ensures InBlock(c, a) && !OutsideSubnet(NewVars(c), LoadLE32(StoreBE32(a)))
  {
    hide Print, Base, BlockSize, NewVars, OutsideSubnet, LoadLE32, LoadBE32, StoreBE32, Sound, Valid;
    var b: U32 :| Allocatable(c, b) && Print(a) == Print(b);
    PrintInjective(a, b);
    AllocatableInBlock(c, a);
    LoadStore32(a, StoreBE32(a));
    MaskEquivalence(c, StoreBE32(a));
  }

  /** No handler makes a user code ambiguous. */
  lemma UserCodesStayUnique(env: Env, c: Cidr, now: int, s: Sys, req: Request)
    requires UniqueUserCodes(s.db.codes)
    ensures UniqueUserCodes(Effect(env, c, now, s, req).0.db.codes)
  {
    if req.Join? {
      JoinCodes(env, c, now, s, req);
      hide Effect, Redeemable;
    } else if req.DropPeer? || req.CreateRule? || req.DropRule? {
      hide Acceptable, AddRule, Unmap, RemovePeer, KeysOf, Normalized, UniqueUserCodes;
    } else if req.Verify? {
      DecisionKeepsUserCodes(s.db, req.userCode, req.action, req.token);
      hide CodeByUser, VerifyRefusal, VerifyAct, UniqueUserCodes;
    } else {
      hide CodeByUser, TokenResponse, ViewResponse;
    }
  }

  lemma DecisionKeepsUserCodes(t: Tables, userCode: string, action: Action, token: string)
    requires UniqueUserCodes(t.codes)
    ensures UniqueUserCodes(VerifyAct(t, userCode, action, token).0.codes)
  {
    hide HasPending;
  }

  lemma JoinCodes(env: Env, c: Cidr, now: int, s: Sys, req: Request)
    requires req.Join?
    ensures var codes := Effect(env, c, now, s, req).0.db.codes;
            codes == s.db.codes || codes == Consume(s.db, req.token, now).codes
  {
    EnrolCodes(env, c, s.(db := Consume(s.db, req.token, now)), req.publicKey, req.name);
    hide Enrol, HasRedeemable, Consume;
  }

  lemma EnrolCodes(env: Env, c: Cidr, s: Sys, publicKey: string, name: string)
    ensures Enrol(env, c, s, publicKey, name).0.db.codes == s.db.codes
  {
    hide Allocate, AddPeer, IPTaken;
  }

  // ----- Agreement of the rule map -----

  ghost predicate RulesFit(env: Env, rules: map<nat, RuleRow>) {
    DistinctKeys(env, rules) && |KeysOf(env, rules)| <= MAX_ENTRIES
  }

  lemma RoomFromFit(env: Env, s: Sys, row: RuleRow)
    requires Agrees(env, s.xdp, s.db.rules) && Valid(s.db)
    requires |KeysOf(env, s.db.rules[s.db.nextId := row])| <= MAX_ENTRIES
    ensures HasRoomFor(env, s.xdp, row)
  {
    hide RuleKeyBytes, KeysOf;
    KeysAfterInsert(env, s.db.rules, s.db.nextId, row);
    MapSize(s.xdp);
  }

  lemma StepKeepsRuleAgreement(env: Env, c: Cidr, s: Sys, op: Op, t: Sys)
    requires Valid(s.db) && Leads(env, c, s, op, t) && Agrees(env, s.xdp, s.db.rules)
    requires RulesFit(env, s.db.rules) && RulesFit(env, t.db.rules)
    ensures Agrees(env, t.xdp, t.db.rules)
  {
    if !op.Handle? {
      hide KeysOf, RestoreRules, DistinctKeys, TablesLeft;
      RestoreAgreesIff(env, op.ruleRows, t.db.rules);
    } else if op.req.DropRule? || op.req.DropPeer? {
      hide KeysOf, Valid, Effect;
      DistinctDeletes(env, c, op.now, s, op.req);
    } else if op.req.CreateRule? {
      CreateKeepsAgreement(env, s, op.req.rule);
    } else {
      hide KeysOf, Valid;
      OthersKeepRules(env, c, op.now, s, op.req);
      hide Effect;
    }
  }

  lemma CreateKeepsAgreement(env: Env, s: Sys, rule: RuleRow)
    requires Valid(s.db) && Agrees(env, s.xdp, s.db.rules)
    requires |KeysOf(env, CreateRuleEffect(env, s, rule).0.db.rules)| <= MAX_ENTRIES
    ensures var t := CreateRuleEffect(env, s, rule).0; Agrees(env, t.xdp, t.db.rules)
  {
    hide KeysOf, HasRoomFor, AddRule, Acceptable, Normalized;
    CreateRuleKeeps(env, s, rule);
    var t := CreateRuleEffect(env, s, rule).0;
    if t.db != s.db {
      assert t.db.rules == s.db.rules[s.db.nextId := Normalized(rule)];
      RoomFromFit(env, s, Normalized(rule));
    }
  }

  lemma {:induction false} RuleMapFollowsTable(env: Env, c: Cidr, states: seq<Sys>, ops: seq<Op>, i: nat)
    requires Run(env, c, states, ops) && states[0] == INITIAL && i < |states|
    requires forall j :: 0 <= j <= i ==> RulesFit(env, states[j].db.rules)
    ensures Agrees(env, states[i].xdp, states[i].db.rules)
  {
    hide Leads, RulesFit;
    if i == 0 {
    } else {
      hide Agrees, Valid, PeersFit, Sound;
      RuleMapFollowsTable(env, c, states, ops, i - 1);
      EveryRunIsSound(env, c, states, ops, i - 1);
      RunStep(env, c, states, ops, i - 1);
      StepKeepsRuleAgreement(env, c, states[i - 1], ops[i - 1], states[i]);
    }
  }

  // ----- Agreement of the device -----

  lemma JoinKeepsAgreement(env: Env, c: Cidr, now: int, s: Sys, req: Request)
    requires req.Join? && PeersFit(c, s.db.peers) && DeviceAgrees(env, s.wg, s.db.peers)
    requires DistinctPeerKeys(env, Effect(env, c, now, s, req).0.db.peers)
    ensures var t := Effect(env, c, now, s, req).0; DeviceAgrees(env, t.wg, t.db.peers)
  {
    hide PeersFit, DeviceAgrees, JoinEffect, OneMore, NewToDevice, DistinctPeerKeys;
    JoinKeeps(env, c, now, s, req.token, req.publicKey, req.name);
    JoinAddsOne(env, c, now, s, req);
    var t := Effect(env, c, now, s, req).0;
    if t.db.peers != s.db.peers && !NewToDevice(env, s.wg, req.publicKey) {
      TakenKeyIsShared(env, s.wg, s.db.peers, t.db.peers, req.publicKey);
    }
  }

  lemma TakenKeyIsShared(env: Env, wg: PeerTable, peers: Peers, after: Peers, publicKey: string)
    requires DeviceAgrees(env, wg, peers) && !NewToDevice(env, wg, publicKey)
    requires OneMore(peers, after, publicKey)
    ensures !DistinctPeerKeys(env, after)
  {
  }

  /** One row more, with the given key, and the others as they were. */
  ghost predicate OneMore(peers: Peers, after: Peers, publicKey: string) {
    && (exists m :: m !in peers && m in after && after[m].publicKey == publicKey)
    && (forall n :: n in peers ==> n in after && after[n] == peers[n])
  }

  lemma StoreAddsOne(env: Env, s: Sys, publicKey: string, name: string, ip: string)
    ensures var t := StorePeer(env, s, publicKey, name, ip).0;
            t.db.peers == s.db.peers || OneMore(s.db.peers, t.db.peers, publicKey)
  {
  }

  /** A join that changes the peers table adds one row, with the request's key. */
  lemma JoinAddsOne(env: Env, c: Cidr, now: int, s: Sys, req: Request)
    requires req.Join?
    ensures var t := Effect(env, c, now, s, req).0;
            t.db.peers == s.db.peers || OneMore(s.db.peers, t.db.peers, req.publicKey)
  {
    hide Allocate, StorePeer, HasRedeemable, OneMore;
    var t := s.(db := Consume(s.db, req.token, now));
    var ip := Allocate(c, UsedIPs(t.db.peers));
    if ip.Some? {
      StoreAddsOne(env, t, req.publicKey, PeerName(req.name, ip.value), ip.value);
    }
  }

  lemma StepKeepsDeviceAgreement(env: Env, c: Cidr, s: Sys, op: Op, t: Sys)
    requires Inv(env, c, s) && Leads(env, c, s, op, t) && DeviceAgrees(env, s.wg, s.db.peers)
    requires DistinctPeerKeys(env, t.db.peers)
    ensures DeviceAgrees(env, t.wg, t.db.peers)
  {
    hide DeviceAgrees, PeersFit, DistinctPeerKeys, Valid, Sound;
    if !op.Handle? {
      hide RestorePeers, RestoreRules, TablesLeft;
      LeftIsValid(env, c, s, op);
      RestoreDeviceIff(env, c, op.peerRows, t.db.peers);
    } else if op.req.Join? {
      JoinKeepsAgreement(env, c, op.now, s, op.req);
    } else if op.req.DropPeer? {
      DropPeerKeepsDevice(env, c, s, op.req.name);
    } else {
      OthersKeepPeers(env, c, op.now, s, op.req);
      hide Effect;
    }
  }

  lemma {:induction false} DeviceFollowsTable(env: Env, c: Cidr, states: seq<Sys>, ops: seq<Op>, i: nat)
    requires Run(env, c, states, ops) && states[0] == INITIAL && i < |states|
    requires forall j :: 0 <= j <= i ==> DistinctPeerKeys(env, states[j].db.peers)
    ensures DeviceAgrees(env, states[i].wg, states[i].db.peers)
  {
    hide Leads, DistinctPeerKeys, Inv;
    if i == 0 {
    } else {
      hide DeviceAgrees;
      DeviceFollowsTable(env, c, states, ops, i - 1);
      EveryRunIsSound(env, c, states, ops, i - 1);
      RunStep(env, c, states, ops, i - 1);
      StepKeepsDeviceAgreement(env, c, states[i - 1], ops[i - 1], states[i]);
    }
  }

  // ----- Recovery refinement -----

  ghost predicate Agreed(env: Env, s: Sys) {
    Agrees(env, s.xdp, s.db.rules) && DeviceAgrees(env, s.wg, s.db.peers)
  }

  /** An agreed state is exactly what startup builds from its tables, in whatever order their rows come. */
  lemma AgreedIsRestored(env: Env, c: Cidr, s: Sys, ps: PeerRows, rs: RuleRows)
    requires Inv(env, c, s) && Agreed(env, s)
    requires Enumerates(ps, s.db.peers) && Enumerates(rs, s.db.rules)
    ensures Restore(env, s.db, ps, rs) == s
  {
    AgreementNeedsDistinct(env, c, s.wg, s.db.peers);
    RestoreDeviceIff(env, c, ps, s.db.peers);
    DeviceIsUnique(env, RestorePeers(env, ps, map[]), s.wg, s.db.peers);
    MapSize(s.xdp);
    RestoreAgreesIff(env, rs, s.db.rules);
    AgreementIsUnique(env, RestoreRules(env, rs, map[]), s.xdp, s.db.rules);
  }

  /**
    The live device and map are what startup would rebuild, in every state of every run in which
    decoded public keys and rule keys stay pairwise distinct and the rule keys fit the map.
   */
  lemma RecoveryRefinement(env: Env, c: Cidr, states: seq<Sys>, ops: seq<Op>, i: nat, ps: PeerRows, rs: RuleRows)
    requires Run(env, c, states, ops) && states[0] == INITIAL && i < |states|
    requires forall j :: 0 <= j <= i ==> DistinctPeerKeys(env, states[j].db.peers)
    requires forall j :: 0 <= j <= i ==> RulesFit(env, states[j].db.rules)
    requires Enumerates(ps, states[i].db.peers) && Enumerates(rs, states[i].db.rules)
    ensures Restore(env, states[i].db, ps, rs) == states[i]
  {
    EveryRunIsSound(env, c, states, ops, i);
    RuleMapFollowsTable(env, c, states, ops, i);
    DeviceFollowsTable(env, c, states, ops, i);
    AgreedIsRestored(env, c, states[i], ps, rs);
  }

  /** An empty server satisfies all of it. */
  lemma InitialIsAgreed(env: Env, c: Cidr)
    ensures Inv(env, c, INITIAL) && Agreed(env, INITIAL) && RulesFit(env, INITIAL.db.rules)
    ensures DistinctPeerKeys(env, INITIAL.db.peers)
  {
    assert KeysOf(env, map[]) == {};
  }
}
