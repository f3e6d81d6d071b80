/**
  What every request is answered and what it leaves behind, said of the request, the stored rows and
  the clock alone.
 */
module Answers {
  import opened Wrappers
  import opened Words
  import opened DottedQuad
  import opened NetIP
  import opened Subnets
  import opened Allocator
  import opened Tables
  import opened Kernel
  import opened Handlers
  import opened RuleSync
  import opened PeerSync
  import opened Runs

  // ----- Device codes -----

  /** A code is issued exactly if neither of its texts is stored; it is pending and lives for 600 seconds. */
  lemma NewCodeAnswer(env: Env, c: Cidr, now: int, s: Sys, dc: string, uc: string)
    ensures Effect(env, c, now, s, NewCode(dc, uc))
         == if dc in s.db.codes || exists d :: d in s.db.codes && s.db.codes[d].userCode == uc then (s, ServerError)
            else (WithCodes(s, s.db.codes[dc := CodeRow(uc, now + 600, Pending, None)]), CodeIssued(dc, uc))
  {
  }

  /** A poll changes nothing, and is told the status of its own code until the code expires. */
  lemma PollAnswer(env: Env, c: Cidr, now: int, s: Sys, dc: string)
    ensures var (t, r) := Effect(env, c, now, s, Poll(dc));
            && t == s
            && (r == TokenExpired <==> dc in s.db.codes ==> s.db.codes[dc].expiresAt < now)
            && (dc in s.db.codes && now <= s.db.codes[dc].expiresAt ==>
                 && (r == TokenPending <==> s.db.codes[dc].status == Pending)
                 && (r == TokenDenied <==> s.db.codes[dc].status == Denied)
                 && (r.TokenApproved? <==> s.db.codes[dc].status == Approved)
                 && (r.TokenApproved? && s.db.codes[dc].token.Some? ==> Some(r.token) == s.db.codes[dc].token))
  {
  }

  ghost predicate NoSuchCode(codes: map<string, CodeRow>, userCode: string) {
    forall d :: d in codes ==> codes[d].userCode != userCode
  }

  lemma LookupByUser(t: Tables, d: string)
    requires UniqueUserCodes(t.codes) && d in t.codes
    ensures CodeByUser(t, t.codes[d].userCode) == Some(t.codes[d])
  {
  }

  /** The page for a user code shows that code's own row; requests without a known, live code are refused. */
  lemma ViewAnswer(env: Env, c: Cidr, now: int, s: Sys, userCode: string)
    requires UniqueUserCodes(s.db.codes)
    ensures var (t, r) := Effect(env, c, now, s, View(userCode));
            && t == s
            && (userCode == "" ==> r == BadRequest)
            && (userCode != "" && NoSuchCode(s.db.codes, userCode) ==> r == NotFound)
            && (forall d :: d in s.db.codes && s.db.codes[d].userCode == userCode && userCode != "" ==>
                 r == if s.db.codes[d].expiresAt < now then NotFound
                      else CodeInfo(userCode, s.db.codes[d].status, s.db.codes[d].expiresAt))
  {
    forall d | d in s.db.codes && s.db.codes[d].userCode == userCode
      ensures CodeByUser(s.db, userCode) == Some(s.db.codes[d])
    {
      LookupByUser(s.db, d);
    }
  }

  /** What a decision on code d is answered, and the tables it leaves. */
  function VerifySpec(now: int, s: Sys, d: string, action: Action, token: string): (Sys, Response)
    requires d in s.db.codes
  {
    var row := s.db.codes[d];
    if row.expiresAt < now then (s, NotFound)
    else if row.status == Approved || row.status == Denied then (s, Conflict)
    else if action == ApproveIt then
      (WithCodes(s, s.db.codes[d := CodeRow(row.userCode, row.expiresAt, Approved, Some(token))]), VerifyApproved)
    else if action == DenyIt then
      (WithCodes(s, s.db.codes[d := CodeRow(row.userCode, row.expiresAt, Denied, row.token)]), VerifyDenied)
    else (s, BadRequest)
  }

  lemma DecisionOnOne(t: Tables, d: string, userCode: string, action: Action, token: string)
    requires UniqueUserCodes(t.codes) && d in t.codes && t.codes[d].userCode == userCode && t.codes[d].status == Pending
    ensures HasPending(t, userCode)
    ensures Approve(t, userCode, token)
         == t.(codes := t.codes[d := t.codes[d].(status := Approved, token := Some(token))])
    ensures Deny(t, userCode) == t.(codes := t.codes[d := t.codes[d].(status := Denied)])
  {
    assert PendingFor(t.codes[d], userCode);
  }

  /** An unknown or expired code is not found, a decided one conflicts, and otherwise exactly that code is decided. */
  lemma VerifyAnswer(env: Env, c: Cidr, now: int, s: Sys, userCode: string, action: Action, token: string)
    requires UniqueUserCodes(s.db.codes)
    ensures userCode == "" ==> Effect(env, c, now, s, Verify(userCode, action, token)) == (s, BadRequest)
    ensures userCode != "" && NoSuchCode(s.db.codes, userCode) ==>
              Effect(env, c, now, s, Verify(userCode, action, token)) == (s, NotFound)
    ensures forall d :: d in s.db.codes && s.db.codes[d].userCode == userCode && userCode != "" ==>
              Effect(env, c, now, s, Verify(userCode, action, token)) == VerifySpec(now, s, d, action, token)
  {
    forall d | d in s.db.codes && s.db.codes[d].userCode == userCode && userCode != ""
      ensures Effect(env, c, now, s, Verify(userCode, action, token)) == VerifySpec(now, s, d, action, token)
    {
      LookupByUser(s.db, d);
      if s.db.codes[d].status == Pending {
        DecisionOnOne(s.db, d, userCode, action, token);
      }
      hide CodeByUser, UniqueUserCodes, HasPending, Approve, Deny;
    }
  }

  // ----- Joining -----

  ghost predicate Redeems(codes: map<string, CodeRow>, token: string, now: int) {
    exists d :: d in codes && codes[d].status == Approved && codes[d].token == Some(token) && now < codes[d].expiresAt
  }

  function Spent(s: Sys, token: string, now: int): Sys {
    WithCodes(s, map d | d in s.db.codes
                         && !(s.db.codes[d].status == Approved && s.db.codes[d].token == Some(token)
                              && now < s.db.codes[d].expiresAt) :: s.db.codes[d])
  }

  /** The address a new peer gets: allocatable, not in use, and with no such address below it. */
  ghost predicate LeastFree(c: Cidr, peers: Peers, a: U32) {
    && Allocatable(c, a) && (forall n :: n in peers ==> peers[n].assignedIP != Print(a))
    && (forall b: U32 :: Allocatable(c, b) && b < a ==> exists n :: n in peers && peers[n].assignedIP == Print(b))
  }

  /** The name a new peer gets. */
  function NameFor(name: string, a: U32): string { if name != "" then name else "peer-" + Print(a) }

  /** The device after a peer has been given one address: nobody else has the address, and all else is as it was. */
  ghost predicate Given(before: PeerTable, after: PeerTable, key: seq<Byte>, net: Network) {
    && after.Keys == before.Keys + {key}
    && after[key] == Some(net)
    && (forall k :: k in before && k != key ==> after[k] == if before[k] == Some(net) then None else before[k])
  }

  /** Enrolment with address a, from the state in which the token has been spent. */
  ghost predicate Enrols(env: Env, s: Sys, publicKey: string, name: string, a: U32, t: Sys, r: Response) {
    var n := NameFor(name, a);
    if n in s.db.peers then t == s && r == ServerError
    else
      && t.db == s.db.(peers := s.db.peers[n := PeerRow(publicKey, Print(a))]) && t.xdp == s.xdp
      && match env.decodeKey(publicKey)
         case None => t.wg == s.wg && r == ServerError
         case Some(key) => Given(s.wg, t.wg, key, Net4(StoreBE32(a))) && r == Joined(Print(a), n)
  }

  lemma LeastFreeExists(env: Env, c: Cidr, s: Sys)
    requires Inv(env, c, s) && |s.db.peers| < Capacity(c)
    ensures exists a: U32 :: LeastFree(c, s.db.peers, a) && Allocate(c, UsedIPs(s.db.peers)) == Some(Print(a))
  {
    hide Print, Capacity, Allocate, Allocatable, Inv;
    AllocationInRuns(env, c, s);
    AllocateLeast(c, UsedIPs(s.db.peers));
  }

  lemma LeastFreeIsOne(c: Cidr, peers: Peers, a: U32, b: U32)
    requires LeastFree(c, peers, a) && LeastFree(c, peers, b)
    ensures a == b
  {
    hide Print, Allocatable;
  }

  lemma GivenByAdd(env: Env, wg: PeerTable, publicKey: string, a: U32)
    ensures match env.decodeKey(publicKey)
            case None => AddPeer(env, wg, publicKey, Print(a)).None?
            case Some(key) =>
              var w := AddPeer(env, wg, publicKey, Print(a));
              w.Some? && Given(wg, w.value, key, Net4(StoreBE32(a)))
  {
    ParseIPOfPrint(env, a);
    hide Print, StoreBE32, ParseIP;
  }

  lemma EnrolAnswer(env: Env, c: Cidr, s: Sys, publicKey: string, name: string, a: U32)
    requires LeastFree(c, s.db.peers, a) && Allocate(c, UsedIPs(s.db.peers)) == Some(Print(a))
    ensures var (t, r) := Enrol(env, c, s, publicKey, name); Enrols(env, s, publicKey, name, a, t, r)
  {
    hide Print, Allocate, Allocatable, AddPeer, StoreBE32, Given, UsedIPs;
    GivenByAdd(env, s.wg, publicKey, a);
  }

  lemma SpentIsConsumed(s: Sys, token: string, now: int)
    ensures s.(db := Consume(s.db, token, now)) == Spent(s, token, now)
    ensures HasRedeemable(s.db, token, now) <==> Redeems(s.db.codes, token, now)
    ensures !Redeems(s.db.codes, token, now) ==> Spent(s, token, now) == s
  {
    if exists d :: d in s.db.codes && Redeemable(s.db.codes[d], token, now) {
    } else {
      assert forall d :: d in s.db.codes ==> !Redeemable(s.db.codes[d], token, now);
      assert Consume(s.db, token, now).codes == s.db.codes;
    }
  }

  lemma SamePeers(s: Sys, token: string, now: int)
    ensures Spent(s, token, now).db.peers == s.db.peers
  {
  }

  lemma NoneLeft(env: Env, c: Cidr, s: Sys, spent: Sys, publicKey: string, name: string)
    requires Inv(env, c, s) && |s.db.peers| >= Capacity(c) && spent.db.peers == s.db.peers
    ensures Enrol(env, c, spent, publicKey, name) == (spent, ServerError)
  {
    hide Inv, Capacity, Allocate, StorePeer;
    AllocationInRuns(env, c, s);
  }

  lemma JoinIs(env: Env, c: Cidr, now: int, s: Sys, token: string, publicKey: string, name: string)
    ensures Effect(env, c, now, s, Join(token, publicKey, name))
         == if token == "" then (s, Unauthorized)
            else if publicKey == "" then (s, BadRequest)
            else if HasRedeemable(s.db, token, now) then
              Enrol(env, c, s.(db := Consume(s.db, token, now)), publicKey, name)
            else (s.(db := Consume(s.db, token, now)), Unauthorized)
  {
    hide Enrol, Consume, HasRedeemable;
  }

  /** A join: every way to fail, what each leaves behind, and what a success gives. */
  lemma JoinAnswer(env: Env, c: Cidr, now: int, s: Sys, token: string, publicKey: string, name: string)
    requires Inv(env, c, s)
    ensures var (t, r) := Effect(env, c, now, s, Join(token, publicKey, name));
            if token == "" then (t, r) == (s, Unauthorized)
            else if publicKey == "" then (t, r) == (s, BadRequest)
            else if !Redeems(s.db.codes, token, now) then (t, r) == (s, Unauthorized)
            else if |s.db.peers| >= Capacity(c) then (t, r) == (Spent(s, token, now), ServerError)
            else exists a: U32 :: LeastFree(c, s.db.peers, a)
                                  && Enrols(env, Spent(s, token, now), publicKey, name, a, t, r)
  {
    hide Inv, Capacity, Consume, HasRedeemable, Redeems, Spent, Enrols, Enrol, LeastFree, Allocate;
    JoinIs(env, c, now, s, token, publicKey, name);
    hide Effect;
    SpentIsConsumed(s, token, now);
    SamePeers(s, token, now);
    if |s.db.peers| < Capacity(c) {
      LeastFreeExists(env, c, s);
      var a: U32 :| LeastFree(c, s.db.peers, a) && Allocate(c, UsedIPs(s.db.peers)) == Some(Print(a));
      EnrolAnswer(env, c, Spent(s, token, now), publicKey, name, a);
    } else {
      NoneLeft(env, c, s, Spent(s, token, now), publicKey, name);
    }
  }

  lemma RoomIfFree(env: Env, c: Cidr, s: Sys, a: U32)
    requires Inv(env, c, s) && LeastFree(c, s.db.peers, a)
    ensures |s.db.peers| < Capacity(c)
  {
    AllocationInRuns(env, c, s);
    hide Inv, Capacity, Print, Allocatable;
    AllocateLeast(c, UsedIPs(s.db.peers));
    assert Print(a) !in UsedIPs(s.db.peers);
    hide Allocate, UsedIPs;
  }

  /** A join succeeds exactly if all of this holds; then its answer is the least free address and the peer's name. */
  lemma JoinSucceedsIff(env: Env, c: Cidr, now: int, s: Sys, token: string, publicKey: string, name: string)
    requires Inv(env, c, s)
    ensures Effect(env, c, now, s, Join(token, publicKey, name)).1.Joined?
       <==> && token != "" && publicKey != "" && env.decodeKey(publicKey).Some?
            && Redeems(s.db.codes, token, now)
            && exists a: U32 :: LeastFree(c, s.db.peers, a) && NameFor(name, a) !in s.db.peers
    ensures forall a: U32 :: LeastFree(c, s.db.peers, a)
                             && Effect(env, c, now, s, Join(token, publicKey, name)).1.Joined? ==>
              Effect(env, c, now, s, Join(token, publicKey, name)).1 == Joined(Print(a), NameFor(name, a))
  {
    hide Effect, Inv, Capacity, Redeems, Spent, LeastFree, NameFor, Print, Given, StoreBE32;
    JoinAnswer(env, c, now, s, token, publicKey, name);
    SamePeers(s, token, now);
    forall a: U32, b: U32 | LeastFree(c, s.db.peers, a) && LeastFree(c, s.db.peers, b) ensures a == b {
      LeastFreeIsOne(c, s.db.peers, a, b);
    }
    if a: U32 :| LeastFree(c, s.db.peers, a) {
      RoomIfFree(env, c, s, a);
    }
  }

  // ----- The device -----

  /** The network that is configured for a text: its one IPv4 address, or the IPv6 addresses with its first 32 bits. */
  ghost predicate NetworkOf(env: Env, text: string, net: Network) {
    if MarkedBy(text, ':') then net == Net6(env.high6(text))
    else exists a: U32 :: text == Print(a) && net == Net4(StoreBE32(a))
  }

  lemma NetworkIs(env: Env, text: string)
    requires ParseSlash32(env, text).Some?
    ensures NetworkOf(env, text, ParseSlash32(env, text).value)
  {
    hide Print, StoreBE32, MarkedBy, Parse, Separator, LoadBE32;
    SeparatorIsFirstMark(text);
    if Separator(text) == '.' {
      ScannedIsPrinted(text);
      var a: U32 :| text == Print(a);
      ParseIPOfPrint(env, a);
    }
  }

  /** A peer is configured exactly if its key decodes and the text is an address; then it alone has the network. */
  lemma AddPeerAnswer(env: Env, wg: PeerTable, publicKey: string, text: string)
    ensures match (env.decodeKey(publicKey), AddPeer(env, wg, publicKey, text))
            case (Some(key), Some(after)) =>
              !NotAnAddress(env, text) && exists net :: NetworkOf(env, text, net) && Given(wg, after, key, net)
            case (Some(_), None) => NotAnAddress(env, text)
            case (None, after) => after.None?
  {
    hide Print, StoreBE32, NotAnAddress, MarkedBy, Parse, Separator;
    ParseIPMeans(env, text);
    SeparatorIsFirstMark(text);
    var net := ParseSlash32(env, text);
    if net.Some? {
      NetworkIs(env, text);
      assert NetworkOf(env, text, net.value);
    }
  }

  // ----- Deleting -----

  /** DeletePeer: every way to fail, and exactly what a success takes away. */
  lemma DropPeerAnswer(env: Env, c: Cidr, now: int, s: Sys, name: string)
    ensures var (t, r) := Effect(env, c, now, s, DropPeer(name));
            if name == "" then (t, r) == (s, BadRequest)
            else if name !in s.db.peers then (t, r) == (s, NotFound)
            else
              var row := s.db.peers[name];
              match env.decodeKey(row.publicKey)
              case None => (t, r) == (s, ServerError)
              case Some(key) =>
                && r == NoContent
                && t.db == s.db.(peers := s.db.peers - {name}, rules := t.db.rules)
                && (forall i :: i in t.db.rules <==> i in s.db.rules && s.db.rules[i].srcIP != row.assignedIP)
                && (forall i :: i in t.db.rules ==> t.db.rules[i] == s.db.rules[i])
                && t.wg == s.wg - {key}
                && (forall k :: k in t.xdp <==>
                     k in s.xdp && forall i :: i in s.db.rules && s.db.rules[i].srcIP == row.assignedIP ==>
                       RuleKeyBytes(env, s.db.rules[i]) != Some(k))
                && (forall k :: k in t.xdp ==> t.xdp[k] == s.xdp[k])
  {
    hide RuleKeyBytes;
    if name != "" && name in s.db.peers && env.decodeKey(s.db.peers[name].publicKey).Some? {
      var ip := s.db.peers[name].assignedIP;
      var doomed := RulesFrom(s.db, ip);
      forall k
        ensures k in KeysOf(env, doomed)
           <==> exists i :: i in s.db.rules && s.db.rules[i].srcIP == ip && RuleKeyBytes(env, s.db.rules[i]) == Some(k)
      {
        KeyMember(env, doomed, k);
        if i :| i in s.db.rules && s.db.rules[i].srcIP == ip && RuleKeyBytes(env, s.db.rules[i]) == Some(k) {
          assert i in doomed && doomed[i] == s.db.rules[i];
        }
      }
      hide KeysOf;
    }
  }

  /** DeleteRule: it finds the rule or not, and a success takes the row and its key, if it has one, and nothing else. */
  lemma DropRuleAnswer(env: Env, c: Cidr, now: int, s: Sys, id: int)
    ensures var (t, r) := Effect(env, c, now, s, DropRule(id));
            if id < 0 || id !in s.db.rules then (t, r) == (s, NotFound)
            else
              var row := s.db.rules[id];
              match RuleKeyBytes(env, row)
              case Some(k) =>
                t == Sys(s.db.(rules := s.db.rules - {id}), s.wg, s.xdp - {k}) && r == NoContent
              case None =>
                if NotAnAddress(env, row.srcIP) || NotAnAddress(env, row.dstIP)
                then t == s.(db := s.db.(rules := s.db.rules - {id})) && r == NoContent
                else (t, r) == (s, ServerError)
  {
    if id >= 0 && id in s.db.rules {
      var row := s.db.rules[id];
      ParseIPMeans(env, row.srcIP);
      ParseIPMeans(env, row.dstIP);
      NoKeyWhenInvalid(env, row);
      assert DeleteRuleRow(s.db, id).rules == s.db.rules - {id};
    }
    hide RuleKeyBytes, ParseIP, NotAnAddress;
  }

  // ----- Creating -----

  /** A request for a rule that is refused before anything is stored. */
  ghost predicate Malformed(env: Env, rule: RuleRow) {
    rule.srcIP == "" || rule.dstIP == "" || rule.port == 0
    || NotAnAddress(env, rule.srcIP) || NotAnAddress(env, rule.dstIP)
  }

  /** The row that is stored for a request: without a protocol it is TCP. */
  function RowFor(rule: RuleRow): RuleRow {
    RuleRow(rule.srcIP, rule.dstIP, rule.port, if rule.proto == 0 then 6 else rule.proto)
  }

  lemma AcceptableMeans(env: Env, rule: RuleRow)
    ensures Acceptable(env, rule) <==> !Malformed(env, rule)
    ensures Normalized(rule) == RowFor(rule)
  {
    ParseIPMeans(env, rule.srcIP);
    ParseIPMeans(env, rule.dstIP);
    hide ParseIP, NotAnAddress;
  }

  /** CreateRule: every way to fail, and what each leaves behind. */
  lemma CreateRuleAnswer(env: Env, c: Cidr, now: int, s: Sys, rule: RuleRow)
    ensures var (t, r) := Effect(env, c, now, s, CreateRule(rule));
            var row := RowFor(rule);
            var stored := s.(db := s.db.(rules := s.db.rules[s.db.nextId := row], nextId := s.db.nextId + 1));
            if Malformed(env, rule) then (t, r) == (s, BadRequest)
            else if exists i :: i in s.db.rules && s.db.rules[i] == row then (t, r) == (s, ServerError)
            else match RuleKeyBytes(env, row)
                 case None => (t, r) == (stored, ServerError)
                 case Some(k) =>
                   if k in s.xdp || |s.xdp| < 1024
                   then (t, r) == (stored.(xdp := s.xdp[k := 1]), RuleCreated(s.db.nextId, row))
                   else (t, r) == (stored, ServerError)
  {
    hide Acceptable, Malformed, Normalized, RuleKeyBytes;
    AcceptableMeans(env, rule);
  }

  /** Between printed addresses only a missing port is malformed, and the key is their bytes, port and protocol. */
  lemma PrintedRule(env: Env, a: U32, b: U32, port: int, proto: int)
    ensures var rule := RuleRow(Print(a), Print(b), port, proto);
            && (Malformed(env, rule) <==> port == 0)
            && RuleKeyBytes(env, rule)
               == Some(StoreBE32(a) + StoreBE32(b) + [port % 0x100, port / 0x100 % 0x100, proto % 0x100, 0])
  {
    hide Print, ParseIP, NotAnAddress, RuleKeyBytes, StoreBE32;
    ParseIPOfPrint(env, a);
    ParseIPOfPrint(env, b);
    ParseIPMeans(env, Print(a));
    ParseIPMeans(env, Print(b));
    KeyOfRow(env, RuleRow(Print(a), Print(b), port, proto));
  }

  /** The cleaner removes exactly the codes whose time has passed. */
  lemma CleanAnswer(env: Env, c: Cidr, now: int, s: Sys)
    ensures Effect(env, c, now, s, Clean)
         == (WithCodes(s, map d | d in s.db.codes && now <= s.db.codes[d].expiresAt :: s.db.codes[d]), NoContent)
  {
    assert CleanExpired(s.db, now).codes == map d | d in s.db.codes && now <= s.db.codes[d].expiresAt :: s.db.codes[d];
  }
}
