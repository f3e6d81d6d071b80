/**
  Handlers interleaved at their atomic steps, with a clock that never goes back, crashes with
  restarts, and a log of what has happened. Random codes and tokens are assumed fresh.
 */
module Races {
  import opened Wrappers
  import opened NetIP
  import opened Sets
  import opened Subnets
  import opened Allocator
  import opened Tables
  import opened Kernel
  import opened Handlers
  import opened PeerSync
  import opened Runs

  /**
    The history: codes and tokens that were drawn, which code was approved with which token, which
    were denied, and for each handler the code whose token it consumed and the name it stored.
   */
  datatype Log = Log(
    deviceCodes: set<string>,
    userCodes: set<string>,
    tokens: set<string>,
    approved: map<string, string>,
    denied: set<string>,
    consumed: map<nat, string>,
    joined: map<nat, string>)

  datatype World = World(sys: Sys, now: int, threads: map<nat, Thread>, nextThread: nat, log: Log)

  const START := World(INITIAL, 0, map[], 0, Log({}, {}, {}, map[], {}, map[], map[]))

  // ----- Transitions -----

  function PendingCodes(t: Tables, userCode: string): set<string> {
    set d | d in t.codes && PendingFor(t.codes[d], userCode)
  }

  function RedeemedCodes(t: Tables, token: string, clock: int): set<string> {
    set d | d in t.codes && Redeemable(t.codes[d], token, clock)
  }

  /** The random values that this step uses have not been drawn before. */
  predicate Fresh(log: Log, th: Thread) {
    && (th.CodeTimed? ==> th.deviceCode !in log.deviceCodes && th.userCode !in log.userCodes)
    && (th.VerifyActing? && th.action == ApproveIt ==> th.token !in log.tokens)
  }

  ghost function Record(log: Log, t: Tables, tid: nat, th: Thread): Log {
    match th
    case CodeTimed(dc, uc, _) => log.(deviceCodes := log.deviceCodes + {dc}, userCodes := log.userCodes + {uc})
    case VerifyActing(uc, action, token) =>
      if action == ApproveIt then
        log.(tokens := log.tokens + {token}, approved := log.approved + map d | d in PendingCodes(t, uc) :: token)
      else if action == DenyIt then log.(denied := log.denied + PendingCodes(t, uc))
      else log
    case JoinTimed(token, _, _, clock) =>
      if RedeemedCodes(t, token, clock) == {} then log
      else log.(consumed := log.consumed[tid := AnyOf(RedeemedCodes(t, token, clock))])
    case JoinAllocated(pk, name, ip) =>
      if InsertPeer(t, name, PeerRow(pk, ip)).None? then log else log.(joined := log.joined[tid := name])
    case _ => log
  }

  datatype Move =
    | Tick(now: int)
    | Arrive(req: Request)
    | Proceed(tid: nat)
    | CrashAndRestart(peerRows: PeerRows, ruleRows: RuleRows)

  ghost predicate Next(env: Env, c: Cidr, w: World, move: Move, v: World) {
    match move
    case Tick(now) => now >= w.now && v == w.(now := now)
    case Arrive(req) => v == w.(threads := w.threads[w.nextThread := Started(req)], nextThread := w.nextThread + 1)
    case Proceed(tid) =>
      && tid in w.threads && !w.threads[tid].Done? && Fresh(w.log, w.threads[tid])
      && var (s, th) := Step(env, c, w.now, w.sys, w.threads[tid]);
      && v == w.(sys := s, threads := w.threads[tid := th], log := Record(w.log, w.sys.db, tid, w.threads[tid]))
    case CrashAndRestart(ps, rs) =>
      && Enumerates(ps, w.sys.db.peers) && Enumerates(rs, w.sys.db.rules)
      && v == w.(sys := Restore(env, w.sys.db, ps, rs), threads := map[])
  }

  ghost predicate Behaviour(env: Env, c: Cidr, worlds: seq<World>, moves: seq<Move>) {
    |worlds| == |moves| + 1 && forall i :: 0 <= i < |moves| ==> Next(env, c, worlds[i], moves[i], worlds[i + 1])
  }

  lemma Moved(env: Env, c: Cidr, worlds: seq<World>, moves: seq<Move>, i: nat)
    requires Behaviour(env, c, worlds, moves) && i < |moves|
    ensures |worlds| == |moves| + 1 && Next(env, c, worlds[i], moves[i], worlds[i + 1])
  {
  }

  // ----- Which steps touch what -----

  function CodesAfter(t: Tables, th: Thread): map<string, CodeRow> {
    match th
    case CodeTimed(dc, uc, clock) => IfSome(InsertCode(t, dc, NewRow(uc, clock)), t).codes
    case VerifyActing(uc, action, token) => VerifyAct(t, uc, action, token).0.codes
    case JoinTimed(token, _, _, clock) => Consume(t, token, clock).codes
    case CleanTimed(clock) => CleanExpired(t, clock).codes
    case _ => t.codes
  }

  function PeersAfter(t: Tables, th: Thread): Peers {
    match th
    case JoinAllocated(pk, name, ip) => IfSome(InsertPeer(t, name, PeerRow(pk, ip)), t).peers
    case DropPeerPurging(name, rows) => if rows == map[] then t.peers - {name} else t.peers
    case _ => t.peers
  }

  /** No other step changes the codes or the peers. */
  lemma OnlyTheseSteps(env: Env, c: Cidr, now: int, s: Sys, th: Thread)
    ensures var t := Step(env, c, now, s, th).0.db;
            t.codes == CodesAfter(s.db, th) && t.peers == PeersAfter(s.db, th)
  {
    hide StepStarted, StepJoin, StepDropPeer, StepDevice, InsertCode, InsertPeer, VerifyAct, Consume, CleanExpired;
    if th.Started? {
      StartedTables(env, now, s, th.req);
    } else if InJoin(th) {
      JoinTables(env, c, s, th);
    } else if InDropPeer(th) {
      DropPeerTables(env, s, th);
    } else if InRule(th) {
      hide AddRule, Unmap;
    } else {
      DeviceTables(now, s, th);
    }
  }

  lemma DropPeerTables(env: Env, s: Sys, th: Thread)
    requires InDropPeer(th)
    ensures var t := StepDropPeer(env, s, th).0.db;
            t.codes == CodesAfter(s.db, th) && t.peers == PeersAfter(s.db, th)
  {
  }

  lemma StartedTables(env: Env, now: int, s: Sys, req: Request)
    ensures var t := StepStarted(env, now, s, req).0.db; t.codes == s.db.codes && t.peers == s.db.peers
  {
  }

  lemma JoinTables(env: Env, c: Cidr, s: Sys, th: Thread)
    requires InJoin(th)
    ensures var t := StepJoin(env, c, s, th).0.db;
            t.codes == CodesAfter(s.db, th) && t.peers == PeersAfter(s.db, th)
  {
  }

  lemma DeviceTables(now: int, s: Sys, th: Thread)
    requires !th.Started? && !InJoin(th) && !InDropPeer(th) && !InRule(th)
    ensures var t := StepDevice(now, s, th).0.db;
            t.codes == CodesAfter(s.db, th) && t.peers == PeersAfter(s.db, th)
  {
  }

  // ----- Codes, approvals and denials -----

  /** What a row of device_codes says about the history of its code. */
  predicate RowOk(log: Log, d: string, row: CodeRow) {
    && d in log.deviceCodes && row.userCode in log.userCodes
    && (match row.status
        case Pending => d !in log.approved && d !in log.denied && row.token == None
        case Approved => d in log.approved && row.token == Some(log.approved[d])
        case Denied => d in log.denied && row.token == None)
  }

  /** No code was both approved and denied, and no two codes were approved with one token. */
  ghost predicate LogOk(log: Log) {
    && log.approved.Keys <= log.deviceCodes && log.denied <= log.deviceCodes
    && log.approved.Keys !! log.denied
    && (forall d :: d in log.approved ==> log.approved[d] in log.tokens)
    && (forall d, e :: d in log.approved && e in log.approved && log.approved[d] == log.approved[e] ==> d == e)
  }

  ghost predicate CodesOk(log: Log, codes: map<string, CodeRow>) {
    LogOk(log) && UniqueUserCodes(codes) && forall d :: d in codes ==> RowOk(log, d, codes[d])
  }

  lemma IssueKeeps(log: Log, t: Tables, tid: nat, th: Thread)
    requires CodesOk(log, t.codes) && th.CodeTimed? && Fresh(log, th)
    ensures CodesOk(Record(log, t, tid, th), CodesAfter(t, th))
  {
  }

  lemma PendingRows(log: Log, t: Tables, userCode: string)
    requires CodesOk(log, t.codes)
    ensures forall d :: d in PendingCodes(t, userCode) ==>
              d in log.deviceCodes && d !in log.approved && d !in log.denied
    ensures forall d, e :: d in PendingCodes(t, userCode) && e in PendingCodes(t, userCode) ==> d == e
  {
  }

  lemma ApproveKeeps(log: Log, t: Tables, tid: nat, th: Thread)
    requires CodesOk(log, t.codes) && th.VerifyActing? && th.action == ApproveIt && Fresh(log, th)
    ensures CodesOk(Record(log, t, tid, th), CodesAfter(t, th))
  {
    ApproveKeepsLog(log, t, tid, th);
    ActedRows(t, th);
    hide LogOk, CodesAfter;
    var log', codes := Record(log, t, tid, th), CodesAfter(t, th);
    forall d | d in codes ensures RowOk(log', d, codes[d]) {
      assert RowOk(log, d, t.codes[d]);
      assert d in PendingCodes(t, th.userCode) <==> PendingFor(t.codes[d], th.userCode);
    }
  }

  /** What a decision does to each row. */
  function Decided(row: CodeRow, th: Thread): CodeRow
    requires th.VerifyActing?
  {
    if !PendingFor(row, th.userCode) || th.action == OtherAction then row
    else if th.action == ApproveIt then row.(status := Approved, token := Some(th.token))
    else row.(status := Denied)
  }

  lemma ActedRows(t: Tables, th: Thread)
    requires th.VerifyActing?
    ensures CodesAfter(t, th).Keys == t.codes.Keys
    ensures forall d :: d in t.codes ==> CodesAfter(t, th)[d] == Decided(t.codes[d], th)
  {
  }

  lemma ApproveKeepsLog(log: Log, t: Tables, tid: nat, th: Thread)
    requires CodesOk(log, t.codes) && th.VerifyActing? && th.action == ApproveIt && Fresh(log, th)
    ensures LogOk(Record(log, t, tid, th))
  {
  }

  lemma DenyKeeps(log: Log, t: Tables, tid: nat, th: Thread)
    requires CodesOk(log, t.codes) && th.VerifyActing? && th.action == DenyIt
    ensures CodesOk(Record(log, t, tid, th), CodesAfter(t, th))
  {
    PendingRows(log, t, th.userCode);
    ActedRows(t, th);
    hide CodesAfter;
    var log', codes := Record(log, t, tid, th), CodesAfter(t, th);
    forall d | d in codes ensures RowOk(log', d, codes[d]) {
      assert RowOk(log, d, t.codes[d]);
      assert d in PendingCodes(t, th.userCode) <==> PendingFor(t.codes[d], th.userCode);
    }
  }

  /** Deleting rows, and any step that leaves the codes and approvals alone. */
  lemma FewerKeeps(log: Log, log': Log, codes: map<string, CodeRow>, codes': map<string, CodeRow>)
    requires CodesOk(log, codes)
    requires log' == log.(consumed := log'.consumed, joined := log'.joined)
    requires forall d :: d in codes' ==> d in codes && codes'[d] == codes[d]
    ensures CodesOk(log', codes')
  {
  }

  lemma StepKeepsCodes(log: Log, t: Tables, tid: nat, th: Thread)
    requires CodesOk(log, t.codes) && Fresh(log, th)
    ensures CodesOk(Record(log, t, tid, th), CodesAfter(t, th))
  {
    if th.CodeTimed? {
      IssueKeeps(log, t, tid, th);
    } else if th.VerifyActing? && th.action == ApproveIt {
      ApproveKeeps(log, t, tid, th);
    } else if th.VerifyActing? && th.action == DenyIt {
      DenyKeeps(log, t, tid, th);
    } else {
      hide CodesOk, InsertPeer;
      FewerKeeps(log, Record(log, t, tid, th), t.codes, CodesAfter(t, th));
    }
  }

  // ----- Consumptions and joins -----

  /** Each consumption took an approved code of its own out of the table for good. */
  ghost predicate ConsumedOk(log: Log, codes: map<string, CodeRow>) {
    && (forall i :: i in log.consumed ==> log.consumed[i] in log.approved && log.consumed[i] !in codes)
    && (forall i, j :: i in log.consumed && j in log.consumed && log.consumed[i] == log.consumed[j] ==> i == j)
    && log.joined.Keys <= log.consumed.Keys
  }

  /** How far a handler is on its way from the token to the stored peer. */
  predicate ThreadOk(c: Cidr, log: Log, tid: nat, th: Thread) {
    && (th.Started? || th.JoinTimed? ==> tid !in log.consumed)
    && (th.JoinConsumed? || th.JoinAllocated? ==> tid in log.consumed && tid !in log.joined)
    && (th.JoinAllocated? ==> AllocatableText(c, th.ip))
  }

  lemma ConsumptionKeeps(log: Log, t: Tables, tid: nat, th: Thread)
    requires CodesOk(log, t.codes) && ConsumedOk(log, t.codes) && th.JoinTimed? && tid !in log.consumed
    ensures ConsumedOk(Record(log, t, tid, th), CodesAfter(t, th))
  {
    hide LogOk, UniqueUserCodes;
    var log', codes := Record(log, t, tid, th), CodesAfter(t, th);
    assert forall d :: d in codes ==> d in t.codes;
    var hit := RedeemedCodes(t, th.token, th.clock);
    if hit != {} {
      var d := AnyOf(hit);
      assert RowOk(log, d, t.codes[d]) && d !in codes;
      assert log'.consumed == log.consumed[tid := d];
      hide CodesAfter, RowOk, Redeemable;
    }
  }

  lemma OthersKeepConsumed(log: Log, t: Tables, tid: nat, th: Thread)
    requires CodesOk(log, t.codes) && ConsumedOk(log, t.codes) && !th.JoinTimed? && Fresh(log, th)
    requires th.JoinAllocated? ==> tid in log.consumed
    ensures ConsumedOk(Record(log, t, tid, th), CodesAfter(t, th))
  {
    NoNewCodes(t, th);
    MoreApprovals(log, t, tid, th);
    hide InsertPeer, RowOk, UniqueUserCodes, CodesAfter;
  }

  lemma NoNewCodes(t: Tables, th: Thread)
    ensures forall d :: d in CodesAfter(t, th) ==> d in t.codes || (th.CodeTimed? && d == th.deviceCode)
  {
  }

  lemma MoreApprovals(log: Log, t: Tables, tid: nat, th: Thread)
    ensures log.approved.Keys <= Record(log, t, tid, th).approved.Keys
    ensures !th.JoinTimed? ==> Record(log, t, tid, th).consumed == log.consumed
  {
  }

  // ----- The invariant -----

  ghost predicate IdsOk(w: World) {
    && (forall i :: i in w.threads ==> i < w.nextThread)
    && (forall i :: i in w.log.consumed ==> i < w.nextThread)
  }

  ghost predicate PeersOk(c: Cidr, log: Log, peers: Peers) {
    PeersFit(c, peers) && forall n :: n in peers ==> n in log.joined.Values
  }

  ghost predicate WorldOk(c: Cidr, w: World) {
    && IdsOk(w)
    && CodesOk(w.log, w.sys.db.codes)
    && ConsumedOk(w.log, w.sys.db.codes)
    && PeersOk(c, w.log, w.sys.db.peers)
    && forall i :: i in w.threads ==> ThreadOk(c, w.log, i, w.threads[i])
  }

  lemma StepKeepsPeers(c: Cidr, log: Log, t: Tables, tid: nat, th: Thread)
    requires PeersOk(c, log, t.peers) && ThreadOk(c, log, tid, th)
    ensures PeersOk(c, Record(log, t, tid, th), PeersAfter(t, th))
  {
    hide AllocatableText;
    var log', peers := Record(log, t, tid, th), PeersAfter(t, th);
    if th.JoinAllocated? {
      StoredPeer(c, log, t, tid, th);
    } else {
      hide InsertPeer;
      assert log'.joined == log.joined;
    }
  }

  lemma StoredPeer(c: Cidr, log: Log, t: Tables, tid: nat, th: Thread)
    requires PeersOk(c, log, t.peers) && ThreadOk(c, log, tid, th) && th.JoinAllocated?
    ensures PeersOk(c, Record(log, t, tid, th), PeersAfter(t, th))
  {
    hide AllocatableText;
    var log', peers := Record(log, t, tid, th), PeersAfter(t, th);
    if InsertPeer(t, th.name, PeerRow(th.publicKey, th.ip)).Some? {
      assert peers == t.peers[th.name := PeerRow(th.publicKey, th.ip)];
      assert log'.joined == log.joined[tid := th.name] && tid !in log.joined;
      forall n | n in peers ensures n in log'.joined.Values {
        if n == th.name {
          assert log'.joined[tid] == n;
        } else {
          var i :| i in log.joined && log.joined[i] == n;
          assert log'.joined[i] == n;
        }
      }
    }
  }

  /** Consumptions and joins of other handlers are as they were. */
  ghost predicate OnlyFor(tid: nat, log: Log, log': Log) {
    forall i :: i != tid ==> (i in log'.consumed <==> i in log.consumed) && (i in log'.joined <==> i in log.joined)
  }

  /** The handler that moved is still on its way, and the log of the others has not changed. */
  lemma StepKeepsThread(env: Env, c: Cidr, w: World, tid: nat)
    requires tid in w.threads && ThreadOk(c, w.log, tid, w.threads[tid]) && w.log.joined.Keys <= w.log.consumed.Keys
    ensures var th := w.threads[tid];
            var log' := Record(w.log, w.sys.db, tid, th);
            && ThreadOk(c, log', tid, Step(env, c, w.now, w.sys, th).1)
            && OnlyFor(tid, w.log, log')
  {
    var th := w.threads[tid];
    hide AllocatableText, PendingCodes;
    if InJoin(th) {
      JoinStepKeepsThread(env, c, w, tid);
    } else {
      NoJoinStates(env, c, w.now, w.sys, th);
    }
  }

  /** Only a join enters the states of a join. */
  lemma NoJoinStates(env: Env, c: Cidr, now: int, s: Sys, th: Thread)
    requires !InJoin(th)
    ensures var next := Step(env, c, now, s, th).1;
            !next.Started? && !next.JoinConsumed? && !next.JoinAllocated? && (next.JoinTimed? ==> th.Started?)
  {
    hide Acceptable, RemovePeer, AddRule, Unmap, InsertRule, InsertCode, VerifyAct, VerifyRefusal, CodeByUser,
      CodeByDevice, TokenResponse, ViewResponse, RemoveRule;
  }

  lemma JoinStepKeepsThread(env: Env, c: Cidr, w: World, tid: nat)
    requires tid in w.threads && ThreadOk(c, w.log, tid, w.threads[tid]) && InJoin(w.threads[tid])
    requires w.log.joined.Keys <= w.log.consumed.Keys
    ensures var th := w.threads[tid];
            var log' := Record(w.log, w.sys.db, tid, th);
            && ThreadOk(c, log', tid, Step(env, c, w.now, w.sys, th).1)
            && OnlyFor(tid, w.log, log')
  {
    hide AllocatableText, InsertPeer, AddPeer, Consume, Redeemable;
    var th := w.threads[tid];
    if th.JoinConsumed? && Allocate(c, UsedIPs(w.sys.db.peers)).Some? {
      AllocatedIsFree(c, UsedIPs(w.sys.db.peers));
    }
    hide Allocate;
    if th.JoinTimed? {
      RedeemedIff(w.sys.db, th.token, th.clock);
      hide HasRedeemable, RedeemedCodes;
    }
  }

  lemma RedeemedIff(t: Tables, token: string, clock: int)
    ensures HasRedeemable(t, token, clock) <==> RedeemedCodes(t, token, clock) != {}
  {
    if d :| d in t.codes && Redeemable(t.codes[d], token, clock) {
      assert d in RedeemedCodes(t, token, clock);
    }
    if RedeemedCodes(t, token, clock) != {} {
      var d := AnyOf(RedeemedCodes(t, token, clock));
      assert Redeemable(t.codes[d], token, clock);
    }
  }

  lemma RunKeepsWorld(env: Env, c: Cidr, w: World, tid: nat, v: World)
    requires WorldOk(c, w) && Next(env, c, w, Proceed(tid), v)
    ensures WorldOk(c, v)
  {
    hide Step, Record, CodesAfter, PeersAfter, LogOk, RowOk, UniqueUserCodes, PeersFit, AllocatableText, Fresh;
    var th, t := w.threads[tid], w.sys.db;
    OnlyTheseSteps(env, c, w.now, w.sys, th);
    StepKeepsCodes(w.log, t, tid, th);
    if th.JoinTimed? {
      ConsumptionKeeps(w.log, t, tid, th);
    } else {
      OthersKeepConsumed(w.log, t, tid, th);
    }
    StepKeepsPeers(c, w.log, t, tid, th);
    StepKeepsThread(env, c, w, tid);
    hide CodesOk, ConsumedOk, PeersOk;
    forall i | i in v.threads ensures ThreadOk(c, v.log, i, v.threads[i]) {
      if i != tid {
        assert v.threads[i] == w.threads[i];
      }
    }
  }

  lemma NextKeepsWorld(env: Env, c: Cidr, w: World, move: Move, v: World)
    requires WorldOk(c, w) && Next(env, c, w, move, v)
    ensures WorldOk(c, v)
  {
    if move.Proceed? {
      RunKeepsWorld(env, c, w, move.tid, v);
    } else {
      hide CodesOk, ConsumedOk, PeersOk, Step, Enumerates, RestorePeers, RestoreRules, AllocatableText;
    }
  }

  lemma {:induction false} EveryWorldIsOk(env: Env, c: Cidr, worlds: seq<World>, moves: seq<Move>, i: nat)
    requires Behaviour(env, c, worlds, moves) && worlds[0] == START && i < |worlds|
    ensures WorldOk(c, worlds[i])
  {
    hide Next;
    if i == 0 {
    } else {
      hide WorldOk;
      EveryWorldIsOk(env, c, worlds, moves, i - 1);
      Moved(env, c, worlds, moves, i - 1);
      NextKeepsWorld(env, c, worlds[i - 1], moves[i - 1], worlds[i]);
    }
  }

  // ----- Main results -----

  /**
    In every interleaving, even when several joins have read the same addresses in use, and across
    crashes, the stored peers have pairwise distinct allocatable addresses.
   */
  lemma AddressesUnderRaces(env: Env, c: Cidr, worlds: seq<World>, moves: seq<Move>, i: nat)
    requires Behaviour(env, c, worlds, moves) && worlds[0] == START && i < |worlds|
    ensures var peers := worlds[i].sys.db.peers;
            && (forall n :: n in peers ==> AllocatableText(c, peers[n].assignedIP))
            && (forall n, m :: n in peers && m in peers && n != m ==> peers[n].assignedIP != peers[m].assignedIP)
            && |peers| <= Capacity(c)
  {
    hide Behaviour, AllocatableText, CodesOk, ConsumedOk;
    EveryWorldIsOk(env, c, worlds, moves, i);
    var peers := worlds[i].sys.db.peers;
    AddressesCount(peers);
    FullIffAtCapacity(c, UsedIPs(peers));
  }

  /**
    Tokens are single-use: in every interleaving the handlers that stored a peer have each consumed
    the token of an approved code of their own, so peers never outnumber joins, joins consumptions,
    or consumptions approvals; a denied code never leads to a peer.
   */
  lemma SingleUse(env: Env, c: Cidr, worlds: seq<World>, moves: seq<Move>, i: nat)
    requires Behaviour(env, c, worlds, moves) && worlds[0] == START && i < |worlds|
    ensures var log, peers := worlds[i].log, worlds[i].sys.db.peers;
            && |peers| <= |log.joined| <= |log.consumed| <= |log.approved|
            && (forall n :: n in peers ==> exists j :: j in log.joined && log.joined[j] == n)
            && (forall j :: j in log.joined ==> j in log.consumed)
            && (forall j :: j in log.consumed ==> log.consumed[j] in log.approved)
            && (forall d :: d in log.approved ==> d !in log.denied)
            && (forall j, k :: j in log.consumed && k in log.consumed && log.consumed[j] == log.consumed[k] ==> j == k)
  {
    hide Behaviour, PeersFit, UniqueUserCodes, RowOk;
    EveryWorldIsOk(env, c, worlds, moves, i);
    var log, peers := worlds[i].log, worlds[i].sys.db.peers;
    hide WorldOk;
    InjectionSize(log.consumed, log.approved.Keys);
    SubsetSize(log.joined.Keys, log.consumed.Keys);
    ValuesSize(log.joined);
    SubsetSize(peers.Keys, log.joined.Values);
    assert |peers| == |peers.Keys| && |log.joined| == |log.joined.Keys| && |log.consumed| == |log.consumed.Keys|;
  }
}
