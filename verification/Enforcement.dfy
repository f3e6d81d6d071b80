/** From the rules table to packets: canonical rules are enforced exactly, and deletions are clean. */
module Enforcement {
  import opened Wrappers
  import opened Words
  import opened DottedQuad
  import opened NetIP
  import opened RuleKeys
  import opened Sets
  import opened Subnets
  import opened Filter
  import opened Tables
  import opened Kernel
  import opened Handlers
  import opened CrashPoints
  import opened RuleSync
  import opened PeerSync
  import opened Runs

  // ----- Canonical rules -----

  ghost predicate IsRule(r: RuleRow, a: U32, b: U32) {
    r.srcIP == Print(a) && r.dstIP == Print(b) && 1 <= r.port <= 0xFFFF && 1 <= r.proto <= 0xFF
  }

  /** Both addresses are IPv4, and nothing of the port or the protocol is truncated. */
  ghost predicate Canonical(r: RuleRow) { exists a: U32, b: U32 :: IsRule(r, a, b) }

  ghost predicate CanonicalRules(rules: map<nat, RuleRow>) {
    forall i :: i in rules ==> Canonical(rules[i])
  }

  /** If a rule is created, also by a handler that is stopped half-way, it is canonical. */
  ghost predicate CanonicalOp(op: Op) {
    !op.Restart? && op.req.CreateRule? ==> Canonical(Normalized(op.req.rule))
  }

  ghost predicate CanonicalOps(ops: seq<Op>) {
    forall i :: 0 <= i < |ops| ==> CanonicalOp(ops[i])
  }

  lemma CanonicalKey(env: Env, r: RuleRow, a: U32, b: U32)
    requires IsRule(r, a, b)
    ensures RuleKeyBytes(env, r)
         == Some(Encode(PeerRuleKey(LoadLE32(StoreBE32(a)), LoadLE32(StoreBE32(b)), r.port, r.proto, 0)))
  {
    NotTruncated(r.port, r.proto);
    hide Print, Encode, StoreBE32, LoadLE32, GetRuleKey, ToU8, ToU16;
    KeyOfPrinted(env, a, b, r.port, r.proto);
  }

  lemma NotTruncated(port: int, proto: int)
    requires 0 <= port <= 0xFFFF && 0 <= proto <= 0xFF
    ensures ToU16(port) == port && ToU8(proto) == proto
  {
  }

  /** Canonical rules with one key are one rule, so the UNIQUE constraint on text is one on keys. */
  lemma SameKeyIsSameRule(env: Env, r: RuleRow, q: RuleRow)
    requires Canonical(r) && Canonical(q) && SameKey(env, r, q)
    ensures r == q
  {
    var a: U32, b: U32 :| IsRule(r, a, b);
    var a': U32, b': U32 :| IsRule(q, a', b');
    CanonicalKey(env, r, a, b);
    CanonicalKey(env, q, a', b');
    hide Print, Encode, StoreBE32, LoadLE32, RuleKeyBytes;
    EncodeInjective(
      PeerRuleKey(LoadLE32(StoreBE32(a)), LoadLE32(StoreBE32(b)), r.port, r.proto, 0),
      PeerRuleKey(LoadLE32(StoreBE32(a')), LoadLE32(StoreBE32(b')), q.port, q.proto, 0));
    SwapInjective(a, a');
    SwapInjective(b, b');
  }

  lemma {:induction false} KeysCount(env: Env, rules: map<nat, RuleRow>)
    ensures |KeysOf(env, rules)| <= |rules|
  {
    hide RuleKeyBytes;
    if rules == map[] {
      assert KeysOf(env, rules) == {};
    } else {
      var i := SomeKey(rules);
      var rest := rules - {i};
      RemoveShrinks(rules, i);
      assert i !in rest && rest[i := rules[i]] == rules;
      KeysCount(env, rest);
      KeysAfterInsert(env, rest, i, rules[i]);
      hide KeysOf;
    }
  }

  lemma CanonicalFit(env: Env, rules: map<nat, RuleRow>)
    requires CanonicalRules(rules) && UniqueRules(rules) && |rules| <= MAX_ENTRIES
    ensures RulesFit(env, rules)
  {
    KeysCount(env, rules);
    hide Canonical, KeysOf;
    forall i, j | i in rules && j in rules && SameKey(env, rules[i], rules[j]) ensures i == j {
      SameKeyIsSameRule(env, rules[i], rules[j]);
    }
  }

  lemma FewerAreCanonical(s: Sys, name: string)
    requires CanonicalRules(s.db.rules) && name in s.db.peers
    ensures CanonicalRules(WithoutRules(s, name).rules)
  {
    hide Canonical;
  }

  lemma EffectKeepsCanonical(env: Env, c: Cidr, now: int, s: Sys, req: Request)
    requires CanonicalRules(s.db.rules) && (req.CreateRule? ==> Canonical(Normalized(req.rule)))
    ensures CanonicalRules(Effect(env, c, now, s, req).0.db.rules)
  {
    hide Canonical;
    if req.CreateRule? || req.DropRule? || req.DropPeer? {
      hide Acceptable, AddRule, Unmap, RemovePeer, KeysOf, Normalized;
    } else {
      OthersKeepRules(env, c, now, s, req);
      hide Effect;
    }
  }

  lemma StepKeepsCanonical(env: Env, c: Cidr, s: Sys, op: Op, t: Sys)
    requires CanonicalRules(s.db.rules) && Leads(env, c, s, op, t) && CanonicalOp(op)
    ensures CanonicalRules(t.db.rules)
  {
    hide Canonical, RestorePeers, RestoreRules, ValidOp, After, Effect, CanonicalRules;
    if !op.Restart? {
      EffectKeepsCanonical(env, c, op.now, s, op.req);
      if op.CrashIn? {
        TablesAtPoint(env, c, op.now, s, op.req, op.n);
        if op.req.DropPeer? && op.req.name in s.db.peers {
          FewerAreCanonical(s, op.req.name);
        }
      }
    }
  }

  lemma {:induction false} RunsStayCanonical(env: Env, c: Cidr, states: seq<Sys>, ops: seq<Op>, i: nat)
    requires Run(env, c, states, ops) && CanonicalRules(states[0].db.rules) && CanonicalOps(ops) && i < |states|
    ensures CanonicalRules(states[i].db.rules)
  {
    hide Leads, CanonicalRules, Canonical;
    if i == 0 {
    } else {
      RunsStayCanonical(env, c, states, ops, i - 1);
      RunStep(env, c, states, ops, i - 1);
      StepKeepsCanonical(env, c, states[i - 1], ops[i - 1], states[i]);
    }
  }

  lemma NoRules()
    ensures CanonicalRules(INITIAL.db.rules)
  {
  }

  /** On runs with canonical rules, at most 1024 at any time, the map and the table agree. */
  lemma CanonicalRunsAgree(env: Env, c: Cidr, states: seq<Sys>, ops: seq<Op>, i: nat)
    requires Run(env, c, states, ops) && states[0] == INITIAL && CanonicalOps(ops) && i < |states|
    requires forall j :: 0 <= j <= i ==> |states[j].db.rules| <= MAX_ENTRIES
    ensures CanonicalRules(states[i].db.rules) && Agrees(env, states[i].xdp, states[i].db.rules)
  {
    hide CanonicalOps, CanonicalRules, RulesFit, UniqueIPs, UniqueUserCodes, UniqueRules, Sound;
    NoRules();
    forall j | 0 <= j <= i ensures RulesFit(env, states[j].db.rules) {
      RunsStayCanonical(env, c, states, ops, j);
      EveryRunIsSound(env, c, states, ops, j);
      CanonicalFit(env, states[j].db.rules);
    }
    RuleMapFollowsTable(env, c, states, ops, i);
    RunsStayCanonical(env, c, states, ops, i);
  }

  // ----- Packets -----

  /** The packet gets as far as the map lookup if its source is in the subnet. */
  predicate Checked(data: seq<Byte>) { HasHeader(data) && IsTransport(data) && HasPorts(data) }

  function RuleFor(data: seq<Byte>): RuleRow
    requires Checked(data)
  {
    RuleRow(Print(SourceAddress(data)), Print(DestinationAddress(data)), DestinationPort(data), data[9])
  }

  lemma RuleMatchesPacket(env: Env, r: RuleRow, data: seq<Byte>)
    requires Canonical(r) && Checked(data)
    ensures RuleKeyBytes(env, r) == Some(Encode(PacketKey(data))) <==> r == RuleFor(data)
  {
    hide Print, Encode, PacketKey, SourceAddress, DestinationAddress, DestinationPort, GetRuleKey, Ihl, ToU8;
    var a: U32, b: U32 :| IsRule(r, a, b);
    NotTruncated(r.port, r.proto);
    assert r.port % 0x1_0000 == r.port;
    KeyAgreement(env, data, a, b, r.port, r.proto);
    if r == RuleFor(data) {
      PrintInjective(a, SourceAddress(data));
      PrintInjective(b, DestinationAddress(data));
    }
  }

  /**
    What the program promises for any bytes: a sound IPv4 header, and then either a source outside
    the subnet, or a protocol other than TCP and UDP, or a complete port field and a row of the rules
    table with the packet's source, destination, destination port and protocol.
   */
  predicate MayPass(c: Cidr, rules: map<nat, RuleRow>, data: seq<Byte>)
    requires c.Cidr4?
  {
    HasHeader(data)
    && (InBlock(c, SourceAddress(data)) && IsTransport(data) ==> HasPorts(data) && RuleFor(data) in rules.Values)
  }

  /** A map that agrees with canonical rules passes exactly the packets that may pass. */
  lemma AgreementEnforces(env: Env, c: Cidr, m: RuleMap, rules: map<nat, RuleRow>, data: seq<Byte>)
    requires c.Cidr4? && Agrees(env, m, rules) && CanonicalRules(rules)
    ensures Decide(NewVars(c), m, data) == Pass <==> MayPass(c, rules, data)
  {
    hide RuleKeyBytes, Canonical, Decide, RuleFor, InBlock, KeysOf, Encode, PacketKey, NewVars, LoadBE32;
    VerdictOnEveryPacket(c, m, data);
    if HasHeader(data) && IsTransport(data) && HasPorts(data) {
      PacketKeyBytes(data);
      var k := Encode(PacketKey(data));
      KeyMember(env, rules, k);
      forall i | i in rules ensures RuleKeyBytes(env, rules[i]) == Some(k) <==> rules[i] == RuleFor(data) {
        RuleMatchesPacket(env, rules[i], data);
      }
    }
  }

  /**
    End to end: in every state reached by whole handlers and restarts, also in the middle of a
    handler, with canonical rules, at most 1024 at any time, the XDP program passes exactly the
    packets that may pass by the rules table, over all byte strings.
   */
  lemma EndToEnd(env: Env, c: Cidr, states: seq<Sys>, ops: seq<Op>, i: nat, data: seq<Byte>)
    requires c.Cidr4? && Run(env, c, states, ops) && states[0] == INITIAL && CanonicalOps(ops) && i < |states|
    requires forall j :: 0 <= j <= i ==> |states[j].db.rules| <= MAX_ENTRIES
    ensures Decide(NewVars(c), states[i].xdp, data) == Pass <==> MayPass(c, states[i].db.rules, data)
  {
    hide Run, CanonicalOps, Agrees, CanonicalRules, MayPass, Decide, NewVars;
    CanonicalRunsAgree(env, c, states, ops, i);
    AgreementEnforces(env, c, states[i].xdp, states[i].db.rules, data);
  }

  /** For a complete TCP or UDP packet from the subnet it comes down to the row. */
  lemma RowDecides(c: Cidr, rules: map<nat, RuleRow>, data: seq<Byte>)
    requires c.Cidr4? && Checked(data) && InBlock(c, SourceAddress(data))
    ensures MayPass(c, rules, data) <==> RuleFor(data) in rules.Values
  {
  }

  lemma PacketRule(env: Env, data: seq<Byte>, request: RuleRow)
    requires Checked(data) && DestinationPort(data) != 0
    requires request == RuleFor(data) || (data[9] == 6 && request == RuleFor(data).(proto := 0))
    ensures Canonical(RuleFor(data)) && Acceptable(env, request) && Normalized(request) == RuleFor(data)
  {
    hide ParseIP, Print;
    ParseIPOfPrint(env, SourceAddress(data));
    ParseIPOfPrint(env, DestinationAddress(data));
    assert IsRule(RuleFor(data), SourceAddress(data), DestinationAddress(data));
  }

  lemma FirstRule(env: Env, c: Cidr, now: int, request: RuleRow)
    requires Acceptable(env, request)
    ensures Effect(env, c, now, INITIAL, CreateRule(request)).0.db.rules == map[1 := Normalized(request)]
  {
    hide Acceptable, Normalized, AddRule;
  }

  /**
    On an empty server a packet from the subnet is dropped, and passes once its rule has been
    created; for a TCP packet the request need not name the protocol.
   */
  lemma FirstRuleOpens(env: Env, c: Cidr, now: int, data: seq<Byte>, request: RuleRow)
    requires c.Cidr4? && Checked(data) && InBlock(c, SourceAddress(data)) && DestinationPort(data) != 0
    requires request == RuleFor(data) || (data[9] == 6 && request == RuleFor(data).(proto := 0))
    ensures var t := Effect(env, c, now, INITIAL, CreateRule(request)).0;
            && Decide(NewVars(c), INITIAL.xdp, data) == Drop
            && Decide(NewVars(c), t.xdp, data) == Pass
  {
    hide ParseIP, Print, Decide, Effect, InBlock, Checked, RuleFor, NewVars, Canonical, SourceAddress,
      DestinationAddress, DestinationPort, Acceptable, Normalized, TablesLeft, MayPass;
    var op := Handle(now, CreateRule(request));
    var t := Effect(env, c, now, INITIAL, op.req).0;
    PacketRule(env, data, request);
    FirstRule(env, c, now, request);
    assert Run(env, c, [INITIAL, t], [op]);
    hide Run;
    EndToEnd(env, c, [INITIAL, t], [op], 0, data);
    EndToEnd(env, c, [INITIAL, t], [op], 1, data);
    RowDecides(c, INITIAL.db.rules, data);
    RowDecides(c, t.db.rules, data);
    assert t.db.rules[1] == RuleFor(data);
  }

  // ----- Deleting a peer -----

  /** The source address bytes of a key. */
  predicate KeyFrom(k: KeyBytes, a: U32) { |k| >= 4 && k[..4] == StoreBE32(a) }

  lemma KeySource(env: Env, r: RuleRow, a: U32)
    requires Canonical(r)
    ensures RuleKeyBytes(env, r).Some?
    ensures KeyFrom(RuleKeyBytes(env, r).value, a) <==> r.srcIP == Print(a)
  {
    var s: U32, d: U32 :| IsRule(r, s, d);
    CanonicalKey(env, r, s, d);
    hide RuleKeyBytes, Print, LoadLE32, StoreBE32, StoreLE32;
    LoadStore32(s, StoreBE32(s));
    LoadStore32(a, StoreBE32(s));
    if Print(s) == Print(a) {
      PrintInjective(s, a);
    }
    if StoreBE32(s) == StoreBE32(a) {
      LoadStore32(a, StoreBE32(a));
    }
  }

  /**
    A successful DeletePeer, with canonical rules and an agreeing map: no row and no key with the
    peer's source address is left, and every other row, key and peer is, including rules towards
    the address.
   */
  lemma DropPeerIsClean(env: Env, c: Cidr, s: Sys, name: string, a: U32)
    requires CanonicalRules(s.db.rules) && UniqueRules(s.db.rules) && Agrees(env, s.xdp, s.db.rules)
    requires DropPeerEffect(env, s, name).1 == NoContent && s.db.peers[name].assignedIP == Print(a)
    ensures var t := DropPeerEffect(env, s, name).0;
            && (forall i :: i in t.db.rules <==> i in s.db.rules && s.db.rules[i].srcIP != Print(a))
            && (forall i :: i in t.db.rules ==> t.db.rules[i] == s.db.rules[i])
            && (forall k :: k in t.xdp <==> k in s.xdp && !KeyFrom(k, a))
            && t.db.peers == s.db.peers - {name} && t.db.codes == s.db.codes && t.db.nextId == s.db.nextId
  {
    hide Canonical, RuleKeyBytes, RemovePeer, Print, KeyFrom;
    var t := DropPeerEffect(env, s, name).0;
    var gone := RulesFrom(s.db, Print(a));
    forall k | k in s.xdp ensures k in KeysOf(env, gone) <==> KeyFrom(k, a) {
      KeyMember(env, s.db.rules, k);
      var i :| i in s.db.rules && RuleKeyBytes(env, s.db.rules[i]) == Some(k);
      KeySource(env, s.db.rules[i], a);
      if k in KeysOf(env, gone) {
        KeyMember(env, gone, k);
        var j :| j in gone && RuleKeyBytes(env, gone[j]) == Some(k);
        KeySource(env, s.db.rules[j], a);
      }
      if s.db.rules[i].srcIP == Print(a) {
        assert i in gone && gone[i] == s.db.rules[i];
      }
    }
  }

  // ----- Reuse of an address -----

  /** Rows are never changed, and a row that appears gets an id above all earlier ones. */
  ghost predicate OnlyNewRules(s: Tables, t: Tables) {
    && s.nextId <= t.nextId
    && forall id :: id in t.rules && id < s.nextId ==> id in s.rules && t.rules[id] == s.rules[id]
  }

  lemma OnlyNewReflexive(s: Tables)
    ensures OnlyNewRules(s, s)
  {
  }

  lemma OnlyNewTransitive(s: Tables, t: Tables, u: Tables)
    requires OnlyNewRules(s, t) && OnlyNewRules(t, u)
    ensures OnlyNewRules(s, u)
  {
  }

  lemma OldRulesAfter(env: Env, c: Cidr, now: int, s: Sys, req: Request)
    ensures OnlyNewRules(s.db, Effect(env, c, now, s, req).0.db)
  {
    if req.CreateRule? || req.DropRule? || req.DropPeer? {
      hide Acceptable, AddRule, Unmap, RemovePeer, KeysOf, Normalized;
    } else {
      OthersKeepRules(env, c, now, s, req);
      hide Effect;
    }
  }

  lemma OldRulesHalfWay(s: Sys, token: string, now: int, name: string)
    ensures OnlyNewRules(s.db, s.db) && OnlyNewRules(s.db, Consume(s.db, token, now))
    ensures name in s.db.peers ==> OnlyNewRules(s.db, WithoutRules(s, name))
  {
  }

  lemma OldRuleStep(env: Env, c: Cidr, s: Sys, op: Op, t: Sys)
    requires Leads(env, c, s, op, t)
    ensures OnlyNewRules(s.db, t.db)
  {
    hide ValidOp, RestorePeers, RestoreRules, After, Effect, OnlyNewRules;
    if op.Restart? {
      OnlyNewReflexive(s.db);
    } else {
      OldRulesAfter(env, c, op.now, s, op.req);
      if op.CrashIn? {
        TablesAtPoint(env, c, op.now, s, op.req, op.n);
        OldRulesHalfWay(s, if op.req.Join? then op.req.token else "", op.now,
                        if op.req.DropPeer? then op.req.name else "");
      }
    }
  }

  lemma {:induction false} OldRulesAreOld(env: Env, c: Cidr, states: seq<Sys>, ops: seq<Op>, i: nat, j: nat)
    requires Run(env, c, states, ops) && i <= j < |states|
    ensures OnlyNewRules(states[i].db, states[j].db)
    decreases j
  {
    hide Leads, OnlyNewRules;
    if i == j {
      OnlyNewReflexive(states[i].db);
    } else {
      OldRulesAreOld(env, c, states, ops, i, j - 1);
      RunStep(env, c, states, ops, j - 1);
      OldRuleStep(env, c, states[j - 1], ops[j - 1], states[j]);
      OnlyNewTransitive(states[i].db, states[j - 1].db, states[j].db);
    }
  }

  lemma NoneAfterDrop(env: Env, c: Cidr, s: Sys, t: Sys, now: int, name: string, data: seq<Byte>)
    requires Inv(env, c, s) && CanonicalRules(s.db.rules) && Agrees(env, s.xdp, s.db.rules)
    requires Leads(env, c, s, Handle(now, DropPeer(name)), t) && DropPeerEffect(env, s, name).1 == NoContent
    requires Checked(data) && s.db.peers[name].assignedIP == Print(SourceAddress(data))
    ensures RuleFor(data) !in t.db.rules.Values
  {
    hide CanonicalRules, Agrees, SourceAddress, Print, DropPeerEffect, PeersFit, Sound, UniqueIPs, UniqueUserCodes;
    DropPeerIsClean(env, c, s, name, SourceAddress(data));
  }

  lemma PassedBy(env: Env, c: Cidr, states: seq<Sys>, ops: seq<Op>, j: nat, data: seq<Byte>) returns (id: nat)
    requires c.Cidr4? && Run(env, c, states, ops) && states[0] == INITIAL && CanonicalOps(ops) && j < |states|
    requires forall n :: 0 <= n <= j ==> |states[n].db.rules| <= MAX_ENTRIES
    requires Checked(data) && InBlock(c, SourceAddress(data))
    requires Decide(NewVars(c), states[j].xdp, data) == Pass
    ensures id in states[j].db.rules && states[j].db.rules[id] == RuleFor(data)
  {
    hide Run, CanonicalOps, Decide, Checked, InBlock, RuleFor, MayPass;
    EndToEnd(env, c, states, ops, j, data);
    RowDecides(c, states[j].db.rules, data);
    id :| id in states[j].db.rules && states[j].db.rules[id] == RuleFor(data);
  }

  /**
    Safe reuse of an address: whatever happens after a successful DeletePeer, a packet from the
    deleted peer's address passes only by a rule created after the deletion.
   */
  lemma SafeReuse(
    env: Env, c: Cidr, states: seq<Sys>, ops: seq<Op>, i: nat, j: nat, name: string, now: int, data: seq<Byte>)
    requires c.Cidr4? && Run(env, c, states, ops) && states[0] == INITIAL && CanonicalOps(ops) && i < j < |states|
    requires forall n :: 0 <= n <= j ==> |states[n].db.rules| <= MAX_ENTRIES
    requires ops[i] == Handle(now, DropPeer(name)) && DropPeerEffect(env, states[i], name).1 == NoContent
    requires Checked(data) && InBlock(c, SourceAddress(data))
    requires states[i].db.peers[name].assignedIP == Print(SourceAddress(data))
    requires Decide(NewVars(c), states[j].xdp, data) == Pass
    ensures exists id :: id in states[j].db.rules && states[j].db.rules[id] == RuleFor(data)
                      && id >= states[i + 1].db.nextId
  {
    hide Leads, CanonicalOps, CanonicalRules, Agrees, Decide, Checked, SourceAddress, InBlock, Print, RuleFor,
      DropPeerEffect;
    var id := PassedBy(env, c, states, ops, j, data);
    RunStep(env, c, states, ops, i);
    OldRulesAreOld(env, c, states, ops, i + 1, j);
    CanonicalRunsAgree(env, c, states, ops, i);
    EveryRunIsSound(env, c, states, ops, i);
    hide Run;
    NoneAfterDrop(env, c, states[i], states[i + 1], now, name, data);
  }

  // ----- Rules that are not canonical -----

  lemma PortWraps(port: int)
    ensures ToU16(port) == ToU16(port + 0x1_0000)
  {
  }

  /** Two ports that differ by 65536 have one key. */
  lemma PortsAlias(env: Env, a: U32, b: U32, port: int)
    ensures SameKey(env, RuleRow(Print(a), Print(b), port, 6), RuleRow(Print(a), Print(b), port + 0x1_0000, 6))
  {
    hide Print, Encode, GetRuleKey, StoreBE32, LoadLE32, ToU16;
    KeyOfPrinted(env, a, b, port, 6);
    KeyOfPrinted(env, a, b, port + 0x1_0000, 6);
    PortWraps(port);
  }

  /**
    The concrete case in which DeleteRule breaks agreement: on an empty server, create the rules
    for ports 80 and 65616, then delete the first. The second row stays without its entry.
   */
  lemma AliasedDelete(env: Env, a: U32, b: U32)
    ensures var r, q := RuleRow(Print(a), Print(b), 80, 6), RuleRow(Print(a), Print(b), 65616, 6);
            var s := CreateRuleEffect(env, CreateRuleEffect(env, INITIAL, r).0, q).0;
            var (t, response) := DropRuleEffect(env, s, 1);
            && Agrees(env, s.xdp, s.db.rules) && response == NoContent
            && t.db.rules == map[2 := q] && t.xdp == map[] && !Agrees(env, t.xdp, t.db.rules)
  {
    var r, q := RuleRow(Print(a), Print(b), 80, 6), RuleRow(Print(a), Print(b), 65616, 6);
    ParseIPOfPrint(env, a);
    ParseIPOfPrint(env, b);
    PortsAlias(env, a, b, 80);
    hide Print, RuleKeyBytes, ParseIP;
    var k := RuleKeyBytes(env, r).value;
    var s1 := CreateRuleEffect(env, INITIAL, r).0;
    assert s1.db.rules == map[1 := r] && s1.db.nextId == 2 && s1.xdp == map[k := 1];
    var s := CreateRuleEffect(env, s1, q).0;
    assert s.db.rules == map[1 := r, 2 := q] && s.xdp == map[k := 1];
    var t := DropRuleEffect(env, s, 1).0;
    assert t.db.rules == map[2 := q] && t.xdp == map[];
    KeyMember(env, s.db.rules, k);
    assert s.db.rules[1] == r && t.db.rules[2] == q;
    forall x | x in KeysOf(env, s.db.rules) ensures x == k {
      KeyMember(env, s.db.rules, x);
    }
    KeyMember(env, t.db.rules, k);
  }
}
