/**
  The HTTP handlers, twice: `Effect` is what a handler does when nothing else runs, and `Step`
  takes it apart into its atomic SQL statements, kernel calls and clock readings, for crashes
  and for interleavings. `WholeHandler` proves that the second, run alone, is the first.
 */
module Handlers {
  import opened Wrappers
  import opened NetIP
  import opened Sets
  import opened Subnets
  import opened Allocator
  import opened Tables
  import opened Kernel

  /** The three copies of the policy. */
  datatype Sys = Sys(db: Tables, wg: PeerTable, xdp: RuleMap)

  function WithCodes(s: Sys, codes: map<string, CodeRow>): Sys { s.(db := s.db.(codes := codes)) }

  datatype Action = ApproveIt | DenyIt | OtherAction

  /** One request, with the random values that its handler draws. */
  datatype Request =
    | NewCode(deviceCode: string, userCode: string)
    | Poll(deviceCode: string)
    | View(userCode: string)
    | Verify(userCode: string, action: Action, token: string)
    | Join(token: string, publicKey: string, name: string)
    | DropPeer(name: string)
    | CreateRule(rule: RuleRow)
    | DropRule(id: int)
    | Clean

  datatype Response =
    | CodeIssued(deviceCode: string, userCode: string)
    | TokenPending | TokenDenied | TokenApproved(token: string) | TokenExpired
    | CodeInfo(userCode: string, status: Status, expiresAt: int)
    | VerifyApproved | VerifyDenied
    | Joined(ip: string, name: string)
    | RuleCreated(id: nat, rule: RuleRow)
    | NoContent
    | BadRequest | Unauthorized | NotFound | Conflict | ServerError

  // ----- Pieces shared by both forms -----

  predicate Expired(row: Option<CodeRow>, now: int) { row.None? || row.value.expiresAt < now }

  /** DeviceTokenHandler's answer from the row it read and the clock it read afterwards. */
  function TokenResponse(row: Option<CodeRow>, now: int): Response {
    if Expired(row, now) then TokenExpired
    else match row.value.status
         case Pending => TokenPending
         case Denied => TokenDenied
         case Approved => TokenApproved(IfSome(row.value.token, ""))
  }

  function ViewResponse(row: Option<CodeRow>, now: int): Response {
    if Expired(row, now) then NotFound
    else CodeInfo(row.value.userCode, row.value.status, row.value.expiresAt)
  }

  function NewRow(userCode: string, now: int): CodeRow {
    CodeRow(userCode, now + DEVICE_CODE_EXPIRY, Pending, None)
  }

  /** Why deviceVerifyPost stops before acting, if it does. */
  function VerifyRefusal(row: Option<CodeRow>, action: Action, now: int): Option<Response> {
    if Expired(row, now) then Some(NotFound)
    else if row.value.status != Pending then Some(Conflict)
    else if action == OtherAction then Some(BadRequest)
    else None
  }

  function VerifyAct(t: Tables, userCode: string, action: Action, token: string): (Tables, Response) {
    match action
    case ApproveIt =>
      if HasPending(t, userCode) then (Approve(t, userCode, token), VerifyApproved) else (t, ServerError)
    case DenyIt => (Deny(t, userCode), VerifyDenied)
    case OtherAction => (t, BadRequest)
  }

  function PeerName(name: string, ip: string): string { if name == "" then "peer-" + ip else name }

  /** The request as CreateRule stores it: protocol 0 means TCP. */
  function Normalized(rule: RuleRow): RuleRow { if rule.proto == 0 then rule.(proto := 6) else rule }

  predicate Acceptable(env: Env, rule: RuleRow) {
    && rule.srcIP != "" && rule.dstIP != "" && rule.port != 0
    && !ParseIP(env, rule.srcIP).Invalid? && !ParseIP(env, rule.dstIP).Invalid?
  }

  /** DeleteRule's best-effort unmapping; None is the error that stops it. */
  function Unmap(env: Env, m: RuleMap, rule: RuleRow): Option<RuleMap> {
    if !ParseIP(env, rule.srcIP).Invalid? && !ParseIP(env, rule.dstIP).Invalid? then RemoveRule(env, m, rule)
    else Some(m)
  }

  /** A peer that DeletePeer can remove: it stops at a key that the device cannot decode. */
  predicate Removable(env: Env, s: Sys, name: string) {
    name != "" && name in s.db.peers && env.decodeKey(s.db.peers[name].publicKey).Some?
  }

  /** A rule that DeleteRule can delete: it stops at valid addresses that have no key. */
  predicate Deletable(env: Env, rule: RuleRow) {
    RuleKeyBytes(env, rule).Some? || ParseIP(env, rule.srcIP).Invalid? || ParseIP(env, rule.dstIP).Invalid?
  }

  // ----- Whole handlers -----

  function JoinEffect(env: Env, c: Cidr, now: int, s: Sys, token: string, publicKey: string, name: string)
    : (Sys, Response)
  {
    if token == "" then (s, Unauthorized)
    else if publicKey == "" then (s, BadRequest)
    else
      var t := s.(db := Consume(s.db, token, now));
      if HasRedeemable(s.db, token, now) then Enrol(env, c, t, publicKey, name) else (t, Unauthorized)
  }

  /** JoinHandler once the token has been consumed. */
  function Enrol(env: Env, c: Cidr, s: Sys, publicKey: string, name: string): (Sys, Response) {
    match Allocate(c, UsedIPs(s.db.peers))
    case None => (s, ServerError)
    case Some(ip) => StorePeer(env, s, publicKey, PeerName(name, ip), ip)
  }

  function StorePeer(env: Env, s: Sys, publicKey: string, name: string, ip: string): (Sys, Response) {
    match InsertPeer(s.db, name, PeerRow(publicKey, ip))
    case None => (s, ServerError)
    case Some(t) => WirePeer(env, s.(db := t), publicKey, name, ip)
  }

  function WirePeer(env: Env, s: Sys, publicKey: string, name: string, ip: string): (Sys, Response) {
    match AddPeer(env, s.wg, publicKey, ip)
    case None => (s, ServerError)
    case Some(wg) => (s.(wg := wg), Joined(ip, name))
  }

  function DropPeerEffect(env: Env, s: Sys, name: string): (Sys, Response) {
    if name == "" then (s, BadRequest)
    else if name !in s.db.peers then (s, NotFound)
    else
      var row := s.db.peers[name];
      match RemovePeer(env, s.wg, row.publicKey)
      case None => (s, ServerError)
      case Some(wg) =>
        var doomed := RulesFrom(s.db, row.assignedIP);
        (Sys(DeletePeerRow(DeleteRulesFrom(s.db, row.assignedIP), name), wg, s.xdp - KeysOf(env, doomed)), NoContent)
  }

  function CreateRuleEffect(env: Env, s: Sys, rule: RuleRow): (Sys, Response) {
    if !Acceptable(env, rule) then (s, BadRequest)
    else
      var row := Normalized(rule);
      match InsertRule(s.db, row)
      case None => (s, ServerError)
      case Some(t) =>
        match AddRule(env, s.xdp, row)
        case None => (s.(db := t), ServerError)
        case Some(m) => (s.(db := t, xdp := m), RuleCreated(s.db.nextId, row))
  }

  function DropRuleEffect(env: Env, s: Sys, id: int): (Sys, Response) {
    if id < 0 || id !in s.db.rules then (s, NotFound)
    else
      match Unmap(env, s.xdp, s.db.rules[id])
      case None => (s, ServerError)
      case Some(m) => (s.(db := DeleteRuleRow(s.db, id), xdp := m), NoContent)
  }

  ghost function Effect(env: Env, c: Cidr, now: int, s: Sys, req: Request): (Sys, Response) {
    match req
    case NewCode(dc, uc) =>
      (match InsertCode(s.db, dc, NewRow(uc, now))
       case None => (s, ServerError)
       case Some(t) => (s.(db := t), CodeIssued(dc, uc)))
    case Poll(dc) => (s, TokenResponse(CodeByDevice(s.db, dc), now))
    case View(uc) => (s, if uc == "" then BadRequest else ViewResponse(CodeByUser(s.db, uc), now))
    case Verify(uc, action, token) =>
      if uc == "" then (s, BadRequest)
      else
        (match VerifyRefusal(CodeByUser(s.db, uc), action, now)
         case Some(r) => (s, r)
         case None => var (t, r) := VerifyAct(s.db, uc, action, token); (s.(db := t), r))
    case Join(token, pk, name) => JoinEffect(env, c, now, s, token, pk, name)
    case DropPeer(name) => DropPeerEffect(env, s, name)
    case CreateRule(rule) => CreateRuleEffect(env, s, rule)
    case DropRule(id) => DropRuleEffect(env, s, id)
    case Clean => (s.(db := CleanExpired(s.db, now)), NoContent)
  }

  // ----- Atomic steps -----

  /** A handler between two of its atomic steps. */
  datatype Thread =
    | Started(req: Request)
    | CodeTimed(deviceCode: string, userCode: string, clock: int)
    | PollRead(row: Option<CodeRow>)
    | ViewRead(row: Option<CodeRow>)
    | VerifyRead(userCode: string, action: Action, token: string, row: Option<CodeRow>)
    | VerifyActing(userCode: string, action: Action, token: string)
    | JoinTimed(token: string, publicKey: string, name: string, clock: int)
    | JoinConsumed(publicKey: string, name: string)
    | JoinAllocated(publicKey: string, name: string, ip: string)
    | JoinStored(publicKey: string, name: string, ip: string)
    | DropPeerFound(name: string, peer: PeerRow)
    | DropPeerUnwired(name: string, ip: string)
    | DropPeerSelected(name: string, ip: string, rows: map<nat, RuleRow>)
    | DropPeerPurging(name: string, rows: map<nat, RuleRow>)
    | RuleStored(newId: nat, rule: RuleRow)
    | DropRuleFound(id: int, rule: RuleRow)
    | DropRuleUnmapped(id: int)
    | CleanTimed(clock: int)
    | Done(response: Response)

  function Stage(th: Thread): nat {
    match th
    case Started(_) => 6
    case DropPeerFound(_, _) => 5
    case DropPeerUnwired(_, _) => 4
    case DropPeerSelected(_, _, _) => 3
    case DropPeerPurging(_, _) => 2
    case JoinTimed(_, _, _, _) => 4
    case JoinConsumed(_, _) => 3
    case JoinAllocated(_, _, _) => 2
    case VerifyRead(_, _, _, _) => 2
    case DropRuleFound(_, _) => 2
    case Done(_) => 0
    case _ => 1
  }

  function Work(th: Thread): nat { if th.DropPeerPurging? then |th.rows| else 0 }

  predicate Progress(th: Thread, next: Thread) {
    Stage(next) < Stage(th) || (Stage(next) == Stage(th) && Work(next) < Work(th))
  }

  /** The first step of a request: input checks, then the first statement or clock reading. */
  ghost function StepStarted(env: Env, now: int, s: Sys, req: Request): (r: (Sys, Thread))
    ensures Stage(r.1) < 6
  {
    match req
    case NewCode(dc, uc) => (s, CodeTimed(dc, uc, now))
    case Poll(dc) => (s, PollRead(CodeByDevice(s.db, dc)))
    case View(uc) => (s, if uc == "" then Done(BadRequest) else ViewRead(CodeByUser(s.db, uc)))
    case Verify(uc, action, token) =>
      (s, if uc == "" then Done(BadRequest) else VerifyRead(uc, action, token, CodeByUser(s.db, uc)))
    case Join(token, pk, name) =>
      (s, if token == "" then Done(Unauthorized)
          else if pk == "" then Done(BadRequest)
          else JoinTimed(token, pk, name, now))
    case DropPeer(name) =>
      (s, if name == "" then Done(BadRequest)
          else if name !in s.db.peers then Done(NotFound)
          else DropPeerFound(name, s.db.peers[name]))
    case CreateRule(rule) =>
      if !Acceptable(env, rule) then (s, Done(BadRequest))
      else (match InsertRule(s.db, Normalized(rule))
            case None => (s, Done(ServerError))
            case Some(t) => (s.(db := t), RuleStored(s.db.nextId, Normalized(rule))))
    case DropRule(id) =>
      (s, if id < 0 || id !in s.db.rules then Done(NotFound) else DropRuleFound(id, s.db.rules[id]))
    case Clean => (s, CleanTimed(now))
  }

  /** The rest of the device-code handlers and the cleaner. */
  ghost function StepDevice(now: int, s: Sys, th: Thread): (r: (Sys, Thread))
    ensures Progress(th, r.1) || r == (s, th)
  {
    hide InsertCode, VerifyAct, VerifyRefusal;
    match th
    case CodeTimed(dc, uc, clock) =>
      (match InsertCode(s.db, dc, NewRow(uc, clock))
       case None => (s, Done(ServerError))
       case Some(t) => (s.(db := t), Done(CodeIssued(dc, uc))))
    case PollRead(row) => (s, Done(TokenResponse(row, now)))
    case ViewRead(row) => (s, Done(ViewResponse(row, now)))
    case VerifyRead(uc, action, token, row) =>
      (match VerifyRefusal(row, action, now)
       case Some(r) => (s, Done(r))
       case None => (s, VerifyActing(uc, action, token)))
    case VerifyActing(uc, action, token) =>
      var (t, r) := VerifyAct(s.db, uc, action, token);
      (s.(db := t), Done(r))
    case CleanTimed(clock) => (s.(db := CleanExpired(s.db, clock)), Done(NoContent))
    case _ => (s, th)
  }

  /** The rest of JoinHandler. */
  function StepJoin(env: Env, c: Cidr, s: Sys, th: Thread): (r: (Sys, Thread))
    ensures Progress(th, r.1) || r == (s, th)
  {
    hide Allocate, InsertPeer, AddPeer, Consume, HasRedeemable;
    match th
    case JoinTimed(token, pk, name, clock) =>
      (s.(db := Consume(s.db, token, clock)),
       if HasRedeemable(s.db, token, clock) then JoinConsumed(pk, name) else Done(Unauthorized))
    case JoinConsumed(pk, name) =>
      (match Allocate(c, UsedIPs(s.db.peers))
       case None => (s, Done(ServerError))
       case Some(ip) => (s, JoinAllocated(pk, PeerName(name, ip), ip)))
    case JoinAllocated(pk, name, ip) =>
      (match InsertPeer(s.db, name, PeerRow(pk, ip))
       case None => (s, Done(ServerError))
       case Some(t) => (s.(db := t), JoinStored(pk, name, ip)))
    case JoinStored(pk, name, ip) =>
      (match AddPeer(env, s.wg, pk, ip)
       case None => (s, Done(ServerError))
       case Some(wg) => (s.(wg := wg), Done(Joined(ip, name))))
    case _ => (s, th)
  }

  /** One turn of the eBPF clean-up loop, on some row that is left. */
  ghost function Purge(env: Env, s: Sys, name: string, rows: map<nat, RuleRow>): (r: (Sys, Thread))
    ensures Progress(DropPeerPurging(name, rows), r.1)
  {
    hide RemoveRule, DeletePeerRow;
    if rows == map[] then (s.(db := DeletePeerRow(s.db, name)), Done(NoContent))
    else
      var i := SomeKey(rows);
      RemoveShrinks(rows, i);
      (s.(xdp := IfSome(RemoveRule(env, s.xdp, rows[i]), s.xdp)), DropPeerPurging(name, rows - {i}))
  }

  /** What a turn does to the tables, and which state it leaves the handler in. */
  lemma PurgeTables(env: Env, s: Sys, name: string, rows: map<nat, RuleRow>)
    ensures var (t, th) := Purge(env, s, name, rows);
            if rows == map[] then t.db == DeletePeerRow(s.db, name) && th.Done?
            else t.db == s.db && th.DropPeerPurging? && th.name == name
  {
  }

  /** The rest of DeletePeer. */
  ghost function StepDropPeer(env: Env, s: Sys, th: Thread): (r: (Sys, Thread))
    ensures Progress(th, r.1) || r == (s, th)
  {
    hide RemovePeer, Purge;
    match th
    case DropPeerFound(name, peer) =>
      (match RemovePeer(env, s.wg, peer.publicKey)
       case None => (s, Done(ServerError))
       case Some(wg) => (s.(wg := wg), DropPeerUnwired(name, peer.assignedIP)))
    case DropPeerUnwired(name, ip) => (s, DropPeerSelected(name, ip, RulesFrom(s.db, ip)))
    case DropPeerSelected(name, ip, rows) => (s.(db := DeleteRulesFrom(s.db, ip)), DropPeerPurging(name, rows))
    case DropPeerPurging(name, rows) => Purge(env, s, name, rows)
    case _ => (s, th)
  }

  /** The rest of CreateRule and DeleteRule. */
  function StepRule(env: Env, s: Sys, th: Thread): (r: (Sys, Thread))
    ensures Progress(th, r.1) || r == (s, th)
  {
    hide AddRule, Unmap;
    match th
    case RuleStored(id, rule) =>
      (match AddRule(env, s.xdp, rule)
       case None => (s, Done(ServerError))
       case Some(m) => (s.(xdp := m), Done(RuleCreated(id, rule))))
    case DropRuleFound(id, rule) =>
      (match Unmap(env, s.xdp, rule)
       case None => (s, Done(ServerError))
       case Some(m) => (s.(xdp := m), DropRuleUnmapped(id)))
    case DropRuleUnmapped(id) => (s.(db := DeleteRuleRow(s.db, id)), Done(NoContent))
    case _ => (s, th)
  }

  predicate InJoin(th: Thread) { th.JoinTimed? || th.JoinConsumed? || th.JoinAllocated? || th.JoinStored? }

  predicate InDropPeer(th: Thread) {
    th.DropPeerFound? || th.DropPeerUnwired? || th.DropPeerSelected? || th.DropPeerPurging?
  }

  predicate InRule(th: Thread) { th.RuleStored? || th.DropRuleFound? || th.DropRuleUnmapped? }

  /** One atomic step of any handler. */
  ghost function Step(env: Env, c: Cidr, now: int, s: Sys, th: Thread): (r: (Sys, Thread))
    ensures Progress(th, r.1) || r == (s, th)
  {
    if th.Started? then StepStarted(env, now, s, th.req)
    else if InJoin(th) then StepJoin(env, c, s, th)
    else if InDropPeer(th) then StepDropPeer(env, s, th)
    else if InRule(th) then StepRule(env, s, th)
    else StepDevice(now, s, th)
  }

  /** A handler's steps with nothing in between. */
  ghost function Solo(env: Env, c: Cidr, now: int, s: Sys, th: Thread): (Sys, Response)
    decreases Stage(th), Work(th)
  {
    if th.Done? then (s, th.response)
    else
      Advances(env, c, now, s, th);
      var (s1, th1) := Step(env, c, now, s, th);
      Solo(env, c, now, s1, th1)
  }

  /** Every step of an unfinished handler brings it closer to its response. */
  lemma Advances(env: Env, c: Cidr, now: int, s: Sys, th: Thread)
    requires !th.Done?
    ensures Progress(th, Step(env, c, now, s, th).1)
  {
  }

  /** The eBPF clean-up loop removes the keys of all the rows it was given. */
  lemma {:induction false} PurgeAll(env: Env, c: Cidr, now: int, s: Sys, name: string, rows: map<nat, RuleRow>)
    ensures Solo(env, c, now, s, DropPeerPurging(name, rows))
         == (s.(db := DeletePeerRow(s.db, name), xdp := s.xdp - KeysOf(env, rows)), NoContent)
    decreases |rows|
  {
    var (s1, th1) := Purge(env, s, name, rows);
    SoloPurge(env, c, now, s, name, rows);
    hide RemoveRule, KeysOf, Step;
    if rows == map[] {
      PurgeNone(env, s.xdp);
      assert Solo(env, c, now, s1, th1) == (s1, NoContent);
    } else {
      hide Solo;
      var rest := th1.rows;
      var i := SomeKey(rows);
      RemoveShrinks(rows, i);
      PurgeAll(env, c, now, s1, name, rest);
      PurgeOne(env, s.xdp, rows, i);
    }
  }

  lemma SoloPurge(env: Env, c: Cidr, now: int, s: Sys, name: string, rows: map<nat, RuleRow>)
    ensures var (s1, th1) := Purge(env, s, name, rows);
            Solo(env, c, now, s, DropPeerPurging(name, rows)) == Solo(env, c, now, s1, th1)
  {
  }

  lemma PurgeNone(env: Env, m: RuleMap)
    ensures m - KeysOf(env, map[]) == m
  {
  }

  lemma PurgeOne(env: Env, m: RuleMap, rows: map<nat, RuleRow>, i: nat)
    requires i in rows
    ensures IfSome(RemoveRule(env, m, rows[i]), m) - KeysOf(env, rows - {i}) == m - KeysOf(env, rows)
  {
    hide RuleKeyBytes;
    var k := RuleKeyBytes(env, rows[i]);
    var all, rest := KeysOf(env, rows), KeysOf(env, rows - {i});
    forall x ensures x in all <==> x in rest || k == Some(x) {
      if x in all {
        var j :| j in rows && RuleKeyBytes(env, rows[j]) == Some(x);
        assert j == i || j in rows - {i};
      }
      if x in rest {
        var j :| j in rows - {i} && RuleKeyBytes(env, rows[j]) == Some(x);
        assert j in rows;
      }
    }
  }

  lemma SoloStep(env: Env, c: Cidr, now: int, s: Sys, th: Thread)
    ensures var (s1, th1) := Step(env, c, now, s, th);
            Solo(env, c, now, s, th) == Solo(env, c, now, s1, th1)
  {
  }

  lemma WireAlone(env: Env, c: Cidr, now: int, s: Sys, pk: string, name: string, ip: string)
    ensures Solo(env, c, now, s, JoinStored(pk, name, ip)) == WirePeer(env, s, pk, name, ip)
  {
  }

  lemma StoreAlone(env: Env, c: Cidr, now: int, s: Sys, pk: string, name: string, ip: string)
    ensures Solo(env, c, now, s, JoinAllocated(pk, name, ip)) == StorePeer(env, s, pk, name, ip)
  {
    SoloStep(env, c, now, s, JoinAllocated(pk, name, ip));
    hide InsertPeer, WirePeer;
    match InsertPeer(s.db, name, PeerRow(pk, ip))
    case None =>
    case Some(t) => WireAlone(env, c, now, s.(db := t), pk, name, ip);
  }

  lemma EnrolAlone(env: Env, c: Cidr, now: int, s: Sys, pk: string, name: string)
    ensures Solo(env, c, now, s, JoinConsumed(pk, name)) == Enrol(env, c, s, pk, name)
  {
    SoloStep(env, c, now, s, JoinConsumed(pk, name));
    hide Allocate, StorePeer;
    match Allocate(c, UsedIPs(s.db.peers))
    case None =>
    case Some(ip) => StoreAlone(env, c, now, s, pk, PeerName(name, ip), ip);
  }

  lemma JoinAlone(env: Env, c: Cidr, now: int, s: Sys, req: Request)
    requires req.Join?
    ensures Solo(env, c, now, s, Started(req)) == Effect(env, c, now, s, req)
  {
    SoloStep(env, c, now, s, Started(req));
    if req.token != "" && req.publicKey != "" {
      var th := JoinTimed(req.token, req.publicKey, req.name, now);
      assert Solo(env, c, now, s, Started(req)) == Solo(env, c, now, s, th);
      SoloStep(env, c, now, s, th);
      hide Consume, HasRedeemable, Enrol;
      EnrolAlone(env, c, now, s.(db := Consume(s.db, req.token, now)), req.publicKey, req.name);
    }
  }

  lemma PurgeAlone(env: Env, c: Cidr, now: int, s: Sys, name: string, ip: string)
    ensures var t := DeletePeerRow(DeleteRulesFrom(s.db, ip), name);
            Solo(env, c, now, s, DropPeerUnwired(name, ip))
            == (Sys(t, s.wg, s.xdp - KeysOf(env, RulesFrom(s.db, ip))), NoContent)
  {
    hide KeysOf;
    var rows := RulesFrom(s.db, ip);
    var s1 := s.(db := DeleteRulesFrom(s.db, ip));
    SoloStep(env, c, now, s, DropPeerUnwired(name, ip));
    SoloStep(env, c, now, s, DropPeerSelected(name, ip, rows));
    hide Solo;
    assert Step(env, c, now, s, DropPeerUnwired(name, ip)) == (s, DropPeerSelected(name, ip, rows));
    assert Step(env, c, now, s, DropPeerSelected(name, ip, rows)) == (s1, DropPeerPurging(name, rows));
    PurgeAll(env, c, now, s1, name, rows);
  }

  lemma DropPeerAlone(env: Env, c: Cidr, now: int, s: Sys, req: Request)
    requires req.DropPeer?
    ensures Solo(env, c, now, s, Started(req)) == Effect(env, c, now, s, req)
  {
    SoloStep(env, c, now, s, Started(req));
    if req.name != "" && req.name in s.db.peers {
      var row := s.db.peers[req.name];
      var th := DropPeerFound(req.name, row);
      assert Solo(env, c, now, s, Started(req)) == Solo(env, c, now, s, th);
      SoloStep(env, c, now, s, th);
      hide RemovePeer, KeysOf;
      match RemovePeer(env, s.wg, row.publicKey)
      case None =>
      case Some(wg) => PurgeAlone(env, c, now, s.(wg := wg), req.name, row.assignedIP);
    }
  }

  lemma RuleAlone(env: Env, c: Cidr, now: int, s: Sys, req: Request)
    requires req.CreateRule? || req.DropRule?
    ensures Solo(env, c, now, s, Started(req)) == Effect(env, c, now, s, req)
  {
    hide Acceptable, InsertRule, AddRule, Unmap, Normalized, StepJoin, StepDropPeer, StepDevice;
    var (s1, t1) := Step(env, c, now, s, Started(req));
    var (s2, t2) := Step(env, c, now, s1, t1);
    SoloStep(env, c, now, s, Started(req));
    SoloStep(env, c, now, s1, t1);
    SoloStep(env, c, now, s2, t2);
  }

  lemma DeviceAlone(env: Env, c: Cidr, now: int, s: Sys, req: Request)
    requires req.NewCode? || req.Poll? || req.View? || req.Verify? || req.Clean?
    ensures Solo(env, c, now, s, Started(req)) == Effect(env, c, now, s, req)
  {
    hide InsertCode, VerifyAct, VerifyRefusal, CodeByUser, CodeByDevice, CleanExpired, TokenResponse, ViewResponse,
      StepJoin, StepDropPeer, StepRule;
    var (s1, t1) := Step(env, c, now, s, Started(req));
    var (s2, t2) := Step(env, c, now, s1, t1);
    SoloStep(env, c, now, s, Started(req));
    SoloStep(env, c, now, s1, t1);
    SoloStep(env, c, now, s2, t2);
  }

  /** Running a handler's atomic steps alone has exactly the whole handler's effect and response. */
  lemma WholeHandler(env: Env, c: Cidr, now: int, s: Sys, req: Request)
    ensures Solo(env, c, now, s, Started(req)) == Effect(env, c, now, s, req)
  {
    if req.Join? {
      JoinAlone(env, c, now, s, req);
    } else if req.DropPeer? {
      DropPeerAlone(env, c, now, s, req);
    } else if req.CreateRule? || req.DropRule? {
      RuleAlone(env, c, now, s, req);
    } else {
      DeviceAlone(env, c, now, s, req);
    }
  }
}
