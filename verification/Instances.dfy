/** Reachable states in which a property fails: for each exact condition, a run that violates it. */
module Instances {
  import opened Wrappers
  import opened Words
  import opened DottedQuad
  import opened NetIP
  import opened RuleKeys
  import opened Subnets
  import opened Allocator
  import opened Tables
  import opened Kernel
  import opened Handlers
  import opened RuleSync
  import opened PeerSync
  import opened Runs
  import opened Enforcement
  import opened Permanence

  // ----- Reachable states -----

  ghost predicate ReachedBy(env: Env, c: Cidr, states: seq<Sys>, ops: seq<Op>, s: Sys) {
    Run(env, c, states, ops) && states[0] == INITIAL && states[|ops|] == s
  }

  ghost predicate Reachable(env: Env, c: Cidr, s: Sys) {
    exists states, ops :: ReachedBy(env, c, states, ops, s)
  }

  lemma InitialIsReachable(env: Env, c: Cidr)
    ensures Reachable(env, c, INITIAL)
  {
    assert ReachedBy(env, c, [INITIAL], [], INITIAL);
  }

  lemma RunMore(env: Env, c: Cidr, states: seq<Sys>, ops: seq<Op>, op: Op, t: Sys)
    requires Run(env, c, states, ops) && Leads(env, c, states[|ops|], op, t)
    ensures Run(env, c, states + [t], ops + [op])
  {
    hide Leads;
  }

  lemma Served(env: Env, c: Cidr, s: Sys, now: int, req: Request)
    requires Reachable(env, c, s)
    ensures Reachable(env, c, Effect(env, c, now, s, req).0)
  {
    var t := Effect(env, c, now, s, req).0;
    var states, ops :| ReachedBy(env, c, states, ops, s);
    assert Leads(env, c, s, Handle(now, req), t) by { hide Effect; }
    hide Effect, Leads;
    RunMore(env, c, states, ops, Handle(now, req), t);
    assert ReachedBy(env, c, states + [t], ops + [Handle(now, req)], t);
  }

  lemma RunLength(env: Env, c: Cidr, states: seq<Sys>, ops: seq<Op>)
    requires Run(env, c, states, ops)
    ensures |states| == |ops| + 1
  {
  }

  lemma ReachableIsSound(env: Env, c: Cidr, s: Sys)
    requires Reachable(env, c, s)
    ensures Inv(env, c, s)
  {
    hide Inv, Run;
    var states, ops :| ReachedBy(env, c, states, ops, s);
    assert |states| == |ops| + 1 by { RunLength(env, c, states, ops); }
    EveryRunIsSound(env, c, states, ops, |ops|);
  }

  // ----- Enrolling a peer -----

  lemma IssueOnly(env: Env, c: Cidr, s: Sys)
    requires s.db.codes == map[]
    ensures Effect(env, c, 0, s, NewCode("d", "u")).0 == WithCodes(s, map["d" := CodeRow("u", 600, Pending, None)])
  {
  }

  lemma ApproveOnly(env: Env, c: Cidr, s: Sys)
    requires s.db.codes == map["d" := CodeRow("u", 600, Pending, None)]
    ensures Effect(env, c, 0, s, Verify("u", ApproveIt, "t")).0
         == WithCodes(s, map["d" := CodeRow("u", 600, Approved, Some("t"))])
  {
    assert CodeByUser(s.db, "u") == Some(s.db.codes["d"]);
    assert PendingFor(s.db.codes["d"], "u");
    assert HasPending(s.db, "u");
    assert Approve(s.db, "u", "t").codes == map["d" := CodeRow("u", 600, Approved, Some("t"))];
    hide CodeByUser, HasPending, Approve;
  }

  lemma JoinOnly(env: Env, c: Cidr, s: Sys, publicKey: string, name: string)
    requires s.db.codes == map["d" := CodeRow("u", 600, Approved, Some("t"))] && publicKey != ""
    ensures Effect(env, c, 0, s, Join("t", publicKey, name)) == Enrol(env, c, WithCodes(s, map[]), publicKey, name)
  {
    hide Enrol;
    assert Redeemable(s.db.codes["d"], "t", 0);
    assert Consume(s.db, "t", 0).codes == map[];
  }

  lemma NotTaken(peers: Peers, ip: string)
    requires ip !in UsedIPs(peers)
    ensures !IPTaken(peers, ip)
  {
  }

  lemma EnrolOnly(env: Env, c: Cidr, s: Sys, publicKey: string, name: string)
    requires name != "" && name !in s.db.peers && Allocate(c, UsedIPs(s.db.peers)).Some?
    ensures var (t, r) := Enrol(env, c, s, publicKey, name);
            var ip := Allocate(c, UsedIPs(s.db.peers)).value;
            var wg := AddPeer(env, s.wg, publicKey, ip);
            && t.db == s.db.(peers := s.db.peers[name := PeerRow(publicKey, ip)])
            && t.wg == IfSome(wg, s.wg) && t.xdp == s.xdp
            && r == if wg.Some? then Joined(ip, name) else ServerError
  {
    AllocatedIsFree(c, UsedIPs(s.db.peers));
    hide Allocate, AddPeer;
    NotTaken(s.db.peers, Allocate(c, UsedIPs(s.db.peers)).value);
    hide IPTaken, UsedIPs;
  }

  /** A code is issued, approved and redeemed: the state before the join, and the one after it. */
  lemma Enrolment(env: Env, c: Cidr, s: Sys, publicKey: string, name: string) returns (u: Sys, t: Sys)
    requires Reachable(env, c, s) && s.db.codes == map[] && Allocate(c, UsedIPs(s.db.peers)).Some?
    requires name != "" && name !in s.db.peers && publicKey != ""
    ensures Reachable(env, c, t)
    ensures var ip := Allocate(c, UsedIPs(s.db.peers)).value;
            var wg := AddPeer(env, s.wg, publicKey, ip);
            && t.db == s.db.(peers := s.db.peers[name := PeerRow(publicKey, ip)])
            && t.wg == IfSome(wg, s.wg) && t.xdp == s.xdp
            && Effect(env, c, 0, u, Join("t", publicKey, name))
               == (t, if wg.Some? then Joined(ip, name) else ServerError)
  {
    hide Reachable, Effect, Allocate, AddPeer, UsedIPs, Enrol;
    IssueOnly(env, c, s);
    Served(env, c, s, 0, NewCode("d", "u"));
    var s1 := Effect(env, c, 0, s, NewCode("d", "u")).0;
    ApproveOnly(env, c, s1);
    Served(env, c, s1, 0, Verify("u", ApproveIt, "t"));
    u := Effect(env, c, 0, s1, Verify("u", ApproveIt, "t")).0;
    JoinOnly(env, c, u, publicKey, name);
    Served(env, c, u, 0, Join("t", publicKey, name));
    t := Effect(env, c, 0, u, Join("t", publicKey, name)).0;
    assert WithCodes(u, map[]) == s;
    EnrolOnly(env, c, s, publicKey, name);
  }

  lemma FirstAddress(c: Cidr)
    requires Capacity(c) > 0
    ensures UsedIPs(map[]) == {} && Allocate(c, UsedIPs(map[])) == Some(Print(First(c)))
  {
    hide Print, First, Broadcast;
    BroadcastIsLast(c);
    assert FirstFree({}, First(c), Broadcast(c)) == Some(Print(First(c)));
  }

  /** The first peer of an empty server. */
  lemma FirstPeer(env: Env, c: Cidr, publicKey: string, name: string) returns (u: Sys, t: Sys)
    requires Capacity(c) > 0 && name != "" && publicKey != ""
    ensures Reachable(env, c, t)
    ensures var ip := Print(First(c));
            var wg := AddPeer(env, map[], publicKey, ip);
            && t.db == EMPTY.(peers := map[name := PeerRow(publicKey, ip)])
            && t.wg == IfSome(wg, map[]) && t.xdp == map[]
            && Effect(env, c, 0, u, Join("t", publicKey, name))
               == (t, if wg.Some? then Joined(ip, name) else ServerError)
  {
    hide Reachable, Effect, Allocate, AddPeer, UsedIPs, Print, First, Capacity;
    InitialIsReachable(env, c);
    FirstAddress(c);
    u, t := Enrolment(env, c, INITIAL, publicKey, name);
  }

  // ----- Rows that nothing removes -----

  /** A run that leaves a peer whose key does not decode, although the join was answered with an error. */
  lemma UndecodableIsReached(env: Env, c: Cidr, publicKey: string, name: string) returns (u: Sys, t: Sys)
    requires Capacity(c) > 0 && name != "" && publicKey != "" && env.decodeKey(publicKey).None?
    ensures Reachable(env, c, t) && Effect(env, c, 0, u, Join("t", publicKey, name)) == (t, ServerError)
    ensures name in t.db.peers && env.decodeKey(t.db.peers[name].publicKey).None? && t.wg == map[]
  {
    hide Reachable, Effect, Print, First, Capacity;
    u, t := FirstPeer(env, c, publicKey, name);
  }

  /** A run that leaves a rule that nothing removes, although its creation was answered with an error. */
  lemma UnmappableIsReached(env: Env, c: Cidr, text: string) returns (t: Sys)
    requires Separator(text) == ':' && env.parseIP6(text) == Only6
    ensures Reachable(env, c, t)
    ensures Effect(env, c, 0, INITIAL, CreateRule(RuleRow(text, text, 80, 6))) == (t, ServerError)
    ensures 1 in t.db.rules && Unmappable(env, c, t.db.rules[1])
  {
    InitialIsReachable(env, c);
    var rule := RuleRow(text, text, 80, 6);
    Served(env, c, INITIAL, 0, CreateRule(rule));
    hide Reachable;
    if AllocatableText(c, text) {
      var a: U32 :| Allocatable(c, a) && text == Print(a);
      ParseIPOfPrint(env, a);
    }
    hide AllocatableText;
    t := Effect(env, c, 0, INITIAL, CreateRule(rule)).0;
    assert t.db.rules[1] == rule;
  }

  // ----- Two rules with one key, around DeletePeer -----

  /** The first peer's address, written as an IPv4-mapped IPv6 address. */
  function MappedText(c: Cidr): string
    requires c.Cidr4?
  {
    "::ffff:" + Print(First(c))
  }

  lemma MappedKey(env: Env, c: Cidr, b: U32)
    requires c.Cidr4? && env.parseIP6(MappedText(c)) == Mapped4(StoreBE32(First(c)))
    ensures ParseIP(env, MappedText(c)) == IP4(StoreBE32(First(c)))
    ensures MappedText(c) != Print(First(c)) && MappedText(c) != ""
    ensures var r, q := RuleRow(Print(First(c)), Print(b), 80, 6), RuleRow(MappedText(c), Print(b), 80, 6);
            SameKey(env, r, q)
  {
    assert Separator(MappedText(c)) == ':';
    ParseIPOfPrint(env, First(c));
    ParseIPOfPrint(env, b);
    hide Print, First, Separator, MappedText, Encode, StoreBE32, LoadLE32;
    assert ParseIP(env, MappedText(c)) == IP4(StoreBE32(First(c)));
    hide ParseIP;
  }

  lemma OneKey(env: Env, rules: map<nat, RuleRow>, r: RuleRow, q: RuleRow, k: KeyBytes)
    requires rules == map[1 := r, 2 := q] && RuleKeyBytes(env, r) == RuleKeyBytes(env, q) == Some(k)
    ensures Agrees(env, map[k := 1], rules)
  {
    hide RuleKeyBytes;
    KeyMember(env, rules, k);
    assert rules[1] == r && rules[2] == q;
    forall x | x in KeysOf(env, rules) ensures x == k {
      KeyMember(env, rules, x);
    }
  }

  /** Two rules with one key on top of any state without rules. */
  lemma TwoSpellings(env: Env, c: Cidr, s: Sys, r: RuleRow, q: RuleRow) returns (t: Sys)
    requires Reachable(env, c, s) && s.db.rules == map[] && s.db.nextId == 1 && s.xdp == map[]
    requires Acceptable(env, r) && Acceptable(env, q) && r.proto != 0 && q.proto != 0 && r != q && SameKey(env, r, q)
    ensures Reachable(env, c, t) && t.wg == s.wg && t.db == s.db.(rules := map[1 := r, 2 := q], nextId := 3)
    ensures t.xdp == map[RuleKeyBytes(env, r).value := 1] && Agrees(env, t.xdp, t.db.rules)
  {
    var k := RuleKeyBytes(env, r).value;
    hide Reachable, Acceptable, RuleKeyBytes;
    Served(env, c, s, 0, CreateRule(r));
    var s1 := Effect(env, c, 0, s, CreateRule(r)).0;
    assert s1 == s.(db := s.db.(rules := map[1 := r], nextId := 2), xdp := map[k := 1]);
    Served(env, c, s1, 0, CreateRule(q));
    t := Effect(env, c, 0, s1, CreateRule(q)).0;
    assert t.xdp == map[k := 1] && t.db == s.db.(rules := map[1 := r, 2 := q], nextId := 3);
    hide Effect;
    OneKey(env, t.db.rules, r, q, k);
  }

  lemma KeyOfFirst(env: Env, s: Sys, r: RuleRow, q: RuleRow)
    requires s.db.rules == map[1 := r, 2 := q] && r.srcIP != q.srcIP && SameKey(env, r, q)
    requires s.xdp == map[RuleKeyBytes(env, r).value := 1]
    ensures RulesFrom(s.db, r.srcIP) == map[1 := r] && DeleteRulesFrom(s.db, r.srcIP).rules == map[2 := q]
    ensures s.xdp - KeysOf(env, RulesFrom(s.db, r.srcIP)) == map[]
    ensures !Agrees(env, map[], map[2 := q])
  {
    hide RuleKeyBytes;
    var k := RuleKeyBytes(env, r).value;
    var gone: map<nat, RuleRow>, kept: map<nat, RuleRow> := map[1 := r], map[2 := q];
    assert s.db.rules[1] == r && s.db.rules[2] == q && gone[1] == r && kept[2] == q;
    KeyMember(env, gone, k);
    KeyMember(env, kept, k);
  }

  /**
    DeletePeer breaks agreement: with one rule from the peer's address and one that spells it as an
    IPv4-mapped IPv6 address, deleting the peer leaves the second row without its entry.
   */
  lemma SpellingLosesKey(env: Env, c: Cidr, publicKey: string, name: string, b: U32) returns (s: Sys)
    requires Capacity(c) > 0 && name != "" && publicKey != "" && env.decodeKey(publicKey).Some?
    requires env.parseIP6(MappedText(c)) == Mapped4(StoreBE32(First(c)))
    ensures Reachable(env, c, s) && Agrees(env, s.xdp, s.db.rules)
    ensures var (t, response) := DropPeerEffect(env, s, name);
            && response == NoContent && t.db.rules == map[2 := RuleRow(MappedText(c), Print(b), 80, 6)]
            && t.xdp == map[] && !Agrees(env, t.xdp, t.db.rules)
  {
    var r, q := RuleRow(Print(First(c)), Print(b), 80, 6), RuleRow(MappedText(c), Print(b), 80, 6);
    MappedKey(env, c, b);
    ParseIPOfPrint(env, First(c));
    ParseIPOfPrint(env, b);
    hide Reachable, Effect, Print, First, Capacity, MappedText, RuleKeyBytes, ParseIP, Agrees, AddPeer, RulesFrom;
    var u, p := FirstPeer(env, c, publicKey, name);
    s := TwoSpellings(env, c, p, r, q);
    KeyOfFirst(env, s, r, q);
    DropPeerSucceedsIff(env, s, name);
  }

  // ----- Two peers with one key -----

  /**
    Two enrolments with one public key: the device no longer agrees with the table, and deleting
    either peer disconnects the other until a restart.
   */
  lemma SharedKeyIsReached(env: Env, c: Cidr, publicKey: string, name: string, other: string) returns (s: Sys)
    requires Capacity(c) > 1 && name != "" && other != "" && name != other && publicKey != ""
    requires env.decodeKey(publicKey).Some?
    ensures Reachable(env, c, s) && s.db.peers.Keys == {name, other}
    ensures SharedKey(env, s.db.peers[name], s.db.peers[other]) && !DeviceAgrees(env, s.wg, s.db.peers)
    ensures forall rows :: Enumerates(rows, s.db.peers - {name}) ==>
              var k := env.decodeKey(publicKey).value;
              k !in DropPeerEffect(env, s, name).0.wg && k in RestorePeers(env, rows, map[])
  {
    hide Reachable, Effect, Allocate, AddPeer, Print, First, Capacity, UsedIPs, DeviceAgrees, PeersFit;
    var u, p := FirstPeer(env, c, publicKey, name);
    UsedAtMost(p.db.peers);
    Pigeonhole(c, UsedIPs(p.db.peers));
    u, s := Enrolment(env, c, p, publicKey, other);
    ReachableIsSound(env, c, s);
    if DeviceAgrees(env, s.wg, s.db.peers) {
      AgreementNeedsDistinct(env, c, s.wg, s.db.peers);
    }
    forall rows | Enumerates(rows, s.db.peers - {name})
      ensures var k := env.decodeKey(publicKey).value;
              k !in DropPeerEffect(env, s, name).0.wg && k in RestorePeers(env, rows, map[])
    {
      SharedKeyIsLost(env, c, s, name, other, rows);
    }
  }

  // ----- A full map -----

  function PortRule(a: U32, b: U32, port: int): RuleRow { RuleRow(Print(a), Print(b), port, 6) }

  /** The rules for ports 1 to n, all in the map. */
  ghost predicate FilledTo(env: Env, c: Cidr, a: U32, b: U32, s: Sys, n: nat) {
    && Reachable(env, c, s) && Agrees(env, s.xdp, s.db.rules) && |s.xdp| == n && s.db.nextId == n + 1
    && (forall i :: i in s.db.rules <==> 1 <= i <= n)
    && (forall i :: i in s.db.rules ==> s.db.rules[i] == PortRule(a, b, i))
  }

  lemma PortRuleIsFine(env: Env, a: U32, b: U32, port: int)
    requires 1 <= port <= 0xFFFF
    ensures Canonical(PortRule(a, b, port)) && Acceptable(env, PortRule(a, b, port))
    ensures Normalized(PortRule(a, b, port)) == PortRule(a, b, port)
    ensures RuleKeyBytes(env, PortRule(a, b, port)).Some?
  {
    assert IsRule(PortRule(a, b, port), a, b);
    ParseIPOfPrint(env, a);
    ParseIPOfPrint(env, b);
    hide Print, ParseIP;
    CanonicalKey(env, PortRule(a, b, port), a, b);
  }

  /** The next rule is new, and so is its key. */
  lemma NewPort(env: Env, c: Cidr, a: U32, b: U32, s: Sys, n: nat)
    requires FilledTo(env, c, a, b, s, n) && n < 0xFFFF
    ensures var row := PortRule(a, b, n + 1);
            row !in s.db.rules.Values && RuleKeyBytes(env, row).Some?
            && RuleKeyBytes(env, row).value !in KeysOf(env, s.db.rules) && s.xdp.Keys == KeysOf(env, s.db.rules)
  {
    hide Reachable, RuleKeyBytes, Canonical;
    var row := PortRule(a, b, n + 1);
    PortRuleIsFine(env, a, b, n + 1);
    var k := RuleKeyBytes(env, row).value;
    KeyMember(env, s.db.rules, k);
    if i :| i in s.db.rules && RuleKeyBytes(env, s.db.rules[i]) == Some(k) {
      PortRuleIsFine(env, a, b, i);
      SameKeyIsSameRule(env, s.db.rules[i], row);
    }
  }

  /** What CreateRule does with the next rule: it is stored, and mapped if there is room. */
  lemma NextRule(env: Env, c: Cidr, a: U32, b: U32, s: Sys, n: nat)
    requires FilledTo(env, c, a, b, s, n) && n < 0xFFFF
    ensures var row := PortRule(a, b, n + 1);
            var (t, r) := CreateRuleEffect(env, s, row);
            var k := RuleKeyBytes(env, row);
            && k.Some? && t.db == s.db.(rules := s.db.rules[n + 1 := row], nextId := n + 2) && t.wg == s.wg
            && (if n < MAX_ENTRIES then r == RuleCreated(n + 1, row) && t.xdp == s.xdp[k.value := 1]
                else r == ServerError && t.xdp == s.xdp)
  {
    NewPort(env, c, a, b, s, n);
    PortRuleIsFine(env, a, b, n + 1);
    hide Reachable, RuleKeyBytes, Canonical, Acceptable, Normalized, PortRule, KeysOf;
  }

  lemma OneMoreEntry(env: Env, m: RuleMap, rules: map<nat, RuleRow>, id: nat, row: RuleRow, k: KeyBytes)
    requires Agrees(env, m, rules) && id !in rules && RuleKeyBytes(env, row) == Some(k)
    requires k !in m && |m| < MAX_ENTRIES
    ensures Agrees(env, m[k := 1], rules[id := row]) && |m[k := 1]| == |m| + 1
  {
    hide RuleKeyBytes, KeysOf;
    KeysAfterInsert(env, rules, id, row);
    assert m[k := 1].Keys == m.Keys + {k};
  }

  lemma CreateRuleIs(env: Env, c: Cidr, s: Sys, rule: RuleRow)
    ensures Effect(env, c, 0, s, CreateRule(rule)) == CreateRuleEffect(env, s, rule)
  {
    hide CreateRuleEffect;
  }

  lemma FillOne(env: Env, c: Cidr, a: U32, b: U32, s: Sys, n: nat) returns (t: Sys)
    requires FilledTo(env, c, a, b, s, n) && n < MAX_ENTRIES
    ensures FilledTo(env, c, a, b, t, n + 1)
  {
    hide Reachable, RuleKeyBytes, PortRule, KeysOf, CreateRuleEffect, Agrees, Effect;
    var row := PortRule(a, b, n + 1);
    NewPort(env, c, a, b, s, n);
    NextRule(env, c, a, b, s, n);
    Served(env, c, s, 0, CreateRule(row));
    OneMoreEntry(env, s.xdp, s.db.rules, n + 1, row, RuleKeyBytes(env, row).value);
    t := CreateRuleEffect(env, s, row).0;
    CreateRuleIs(env, c, s, row);
  }

  lemma {:induction false} Filled(env: Env, c: Cidr, a: U32, b: U32, n: nat) returns (s: Sys)
    requires n <= MAX_ENTRIES
    ensures FilledTo(env, c, a, b, s, n)
  {
    if n == 0 {
      InitialIsReachable(env, c);
      hide Reachable;
      assert KeysOf(env, map[]) == {};
      s := INITIAL;
    } else {
      hide FilledTo;
      s := Filled(env, c, a, b, n - 1);
      s := FillOne(env, c, a, b, s, n - 1);
    }
  }

  lemma OneMoreKey(env: Env, rules: map<nat, RuleRow>, id: nat, row: RuleRow)
    requires id !in rules && RuleKeyBytes(env, row).Some? && RuleKeyBytes(env, row).value !in KeysOf(env, rules)
    ensures |KeysOf(env, rules[id := row])| == |KeysOf(env, rules)| + 1
  {
    hide RuleKeyBytes, KeysOf;
    KeysAfterInsert(env, rules, id, row);
  }

  lemma {:induction false} RowsTo(ids: set<nat>, n: nat)
    requires forall i :: i in ids <==> 1 <= i <= n
    ensures |ids| == n
  {
    if n == 0 {
      assert ids == {};
    } else {
      RowsTo(ids - {n}, n - 1);
    }
  }

  /**
    A full map: after the rules for ports 1 to 1024, CreateRule answers the one for port 1025 with an
    error and stores it; from then on neither the live map nor any restart agrees with the table.
   */
  lemma FullMap(env: Env, c: Cidr, a: U32, b: U32) returns (s: Sys)
    ensures Reachable(env, c, s) && Agrees(env, s.xdp, s.db.rules) && |s.db.rules.Keys| == MAX_ENTRIES
    ensures var (t, r) := CreateRuleEffect(env, s, PortRule(a, b, 1025));
            && r == ServerError && 1025 in t.db.rules && t.db.rules[1025] == PortRule(a, b, 1025) && t.xdp == s.xdp
            && !Agrees(env, t.xdp, t.db.rules)
            && (forall rows :: Enumerates(rows, t.db.rules) ==>
                 !Agrees(env, RestoreRules(env, rows, map[]), t.db.rules))
  {
    s := Filled(env, c, a, b, MAX_ENTRIES);
    NewPort(env, c, a, b, s, MAX_ENTRIES);
    NextRule(env, c, a, b, s, MAX_ENTRIES);
    var t := CreateRuleEffect(env, s, PortRule(a, b, 1025)).0;
    hide Reachable, RuleKeyBytes, PortRule, KeysOf, CreateRuleEffect, RestoreRules, Enumerates;
    RowsTo(s.db.rules.Keys, MAX_ENTRIES);
    MapSize(s.xdp);
    OneMoreKey(env, s.db.rules, 1025, PortRule(a, b, 1025));
    forall rows | Enumerates(rows, t.db.rules) ensures !Agrees(env, RestoreRules(env, rows, map[]), t.db.rules) {
      RestoreAgreesIff(env, rows, t.db.rules);
    }
  }
}
