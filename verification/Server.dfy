/**
  The HTTP handlers over the three handles, and the startup that fills them: each method proved
  against the effect that the run theorems are about.
 */
module Server {
  import opened Wrappers
  import opened NetIP
  import opened RuleKeys
  import opened Subnets
  import opened Allocator
  import opened Tables
  import opened Kernel
  import opened Handlers
  import opened Runs
  import opened Database
  import opened FirewallService
  import opened WireguardDevice

  class Server {
    const env: Env
    const subnet: Cidr
    const db: DB
    const device: Device
    const xdp: Firewall

    ghost predicate Ready()
      reads db
    {
      device.env == env && xdp.env == env && UniqueUserCodes(db.codes)
    }

    function View(): Sys
      reads db, device, xdp
    {
      Sys(db.View(), device.peers, xdp.peerRules)
    }

    constructor (env: Env, subnet: Cidr, db: DB, device: Device, xdp: Firewall)
      ensures this.env == env && this.subnet == subnet && this.db == db && this.device == device && this.xdp == xdp
    {
      this.env, this.subnet, this.db, this.device, this.xdp := env, subnet, db, device, xdp;
    }

    // ----- Device authorization -----

    method DeviceCodeHandler(deviceCode: string, userCode: string, now: int) returns (r: Response)
      requires Ready()
      modifies db
      ensures Ready() && (View(), r) == Effect(env, subnet, now, old(View()), NewCode(deviceCode, userCode))
    {
      UserCodesStayUnique(env, subnet, now, View(), NewCode(deviceCode, userCode));
      var ok := db.CreateDeviceCode(deviceCode, userCode, now);
      r := if ok then CodeIssued(deviceCode, userCode) else ServerError;
    }

    method DeviceTokenHandler(deviceCode: string, now: int) returns (r: Response)
      ensures (View(), r) == Effect(env, subnet, now, View(), Poll(deviceCode))
    {
      var dc := db.GetDeviceCodeByDeviceCode(deviceCode);
      if dc.None? || dc.value.expiresAt < now {
        return TokenExpired;
      }
      match dc.value.status
      case Pending => r := TokenPending;
      case Denied => r := TokenDenied;
      case Approved => r := TokenApproved(IfSome(dc.value.token, ""));
    }

    method DeviceVerifyGet(code: string, now: int) returns (r: Response)
      requires Ready()
      ensures (View(), r) == Effect(env, subnet, now, View(), Request.View(code))
    {
      if code == "" {
        return BadRequest;
      }
      var dc := db.GetDeviceCodeByUserCode(code);
      if dc.None? || dc.value.expiresAt < now {
        return NotFound;
      }
      r := CodeInfo(dc.value.userCode, dc.value.status, dc.value.expiresAt);
    }

    method DeviceVerifyPost(userCode: string, action: Action, token: string, now: int) returns (r: Response)
      requires Ready()
      modifies db
      ensures Ready() && (View(), r) == Effect(env, subnet, now, old(View()), Verify(userCode, action, token))
    {
      UserCodesStayUnique(env, subnet, now, View(), Verify(userCode, action, token));
      hide UniqueUserCodes;
      if userCode == "" {
        return BadRequest;
      }
      var dc := db.GetDeviceCodeByUserCode(userCode);
      if dc.None? || dc.value.expiresAt < now {
        return NotFound;
      }
      if dc.value.status != Pending {
        return Conflict;
      }
      match action
      case ApproveIt =>
        NothingToApprove(db.View(), userCode, token);
        var ok := db.ApproveDeviceCode(userCode, token);
        r := if ok then VerifyApproved else ServerError;
      case DenyIt =>
        db.DenyDeviceCode(userCode);
        r := VerifyDenied;
      case OtherAction =>
        r := BadRequest;
    }

    // ----- Peers -----

    method JoinHandler(token: string, publicKey: string, name: string, now: int) returns (r: Response)
      requires Ready()
      modifies db, device
      ensures Ready() && (View(), r) == Effect(env, subnet, now, old(View()), Join(token, publicKey, name))
    {
      UserCodesStayUnique(env, subnet, now, View(), Join(token, publicKey, name));
      hide Allocate, InsertPeer, Kernel.AddPeer, HasRedeemable, Consume, UniqueUserCodes;
      if token == "" {
        return Unauthorized;
      }
      if publicKey == "" {
        return BadRequest;
      }
      var valid := db.ConsumeAccessToken(token, now);
      if !valid {
        return Unauthorized;
      }
      var assignedIP := db.NextAvailableIP(subnet);
      if assignedIP.None? {
        return ServerError;
      }
      var peerName := name;
      if peerName == "" {
        peerName := "peer-" + assignedIP.value;
      }
      var stored := db.AddPeer(peerName, publicKey, assignedIP.value);
      if !stored {
        return ServerError;
      }
      var wired := device.AddPeer(publicKey, assignedIP.value);
      if !wired {
        return ServerError;
      }
      r := Joined(assignedIP.value, peerName);
    }

    method DeletePeer(name: string) returns (r: Response)
      requires Ready()
      modifies db, device, xdp
      ensures Ready() && (View(), r) == DropPeerEffect(env, old(View()), name)
    {
      hide Kernel.RemovePeer, RemoveRule, KeysOf, RulesFrom, DeleteRulesFrom, UniqueUserCodes;
      SameCodes(db.View(), name);
      if name == "" {
        return BadRequest;
      }
      var peer := db.GetPeerByName(name);
      if peer.None? {
        return NotFound;
      }
      var removed := device.RemovePeer(peer.value.publicKey);
      if !removed {
        return ServerError;
      }
      ghost var doomed := RulesFrom(db.View(), peer.value.assignedIP);
      var deleted := db.RemoveRulesForPeer(peer.value.assignedIP);
      NoRowKeys(env, xdp.peerRules, deleted);
      for i := 0 to |deleted|
        modifies xdp
        invariant xdp.peerRules == old(xdp.peerRules) - RowKeys(env, deleted[..i])
      {
        var rule := deleted[i].1;
        var gone := xdp.RemovePeerRule(rule.srcIP, rule.dstIP, rule.port, ToU8(rule.proto));
        RemoveOneRow(env, old(xdp.peerRules), deleted, i);
      }
      assert deleted[..|deleted|] == deleted;
      RowKeysOfTable(env, deleted, doomed);
      db.RemovePeer(name);
      r := NoContent;
    }

    // ----- Rules -----

    method CreateRule(request: RuleRow) returns (r: Response)
      requires Ready()
      modifies db, xdp
      ensures Ready() && (View(), r) == CreateRuleEffect(env, old(View()), request)
    {
      hide Kernel.AddRule, ParseIP, UniqueUserCodes;
      if request.srcIP == "" || request.dstIP == "" || request.port == 0 {
        return BadRequest;
      }
      if ParseIP(env, request.srcIP).Invalid? {
        return BadRequest;
      }
      if ParseIP(env, request.dstIP).Invalid? {
        return BadRequest;
      }
      var proto := request.proto;
      if proto == 0 {
        proto := 6;
      }
      var row := RuleRow(request.srcIP, request.dstIP, request.port, proto);
      var id := db.AddRule(row);
      if id.None? {
        return ServerError;
      }
      ProtoTwice(env, xdp.peerRules, row);
      var mapped := xdp.AddPeerRule(row.srcIP, row.dstIP, row.port, ToU8(row.proto));
      if !mapped {
        return ServerError;
      }
      r := RuleCreated(id.value, row);
    }

    method DeleteRule(id: int) returns (r: Response)
      requires Ready()
      modifies db, xdp
      ensures Ready() && (View(), r) == DropRuleEffect(env, old(View()), id)
    {
      hide Kernel.RemoveRule, ParseIP, UniqueUserCodes;
      var rule := db.GetRuleByID(id);
      if rule.None? {
        return NotFound;
      }
      if !ParseIP(env, rule.value.srcIP).Invalid? && !ParseIP(env, rule.value.dstIP).Invalid? {
        ProtoTwice(env, xdp.peerRules, rule.value);
        var ok := xdp.RemovePeerRule(rule.value.srcIP, rule.value.dstIP, rule.value.port, ToU8(rule.value.proto));
        if !ok {
          return ServerError;
        }
      }
      db.RemoveRule(id);
      r := NoContent;
    }
  }

  // ----- Startup -----

  /** The first loop: a peer that cannot be added is skipped. */
  method RestoreDevice(db: DB, dev: Device) returns (ghost rows: PeerRows)
    requires dev.peers == map[]
    modifies dev
    ensures Enumerates(rows, db.peers) && dev.peers == RestorePeers(dev.env, rows, map[])
  {
    hide Kernel.AddPeer, Enumerates;
    var peers := db.GetAllPeers();
    rows := peers;
    for i := 0 to |peers|
      invariant dev.peers == RestorePeers(dev.env, peers[..i], map[])
    {
      var restored := dev.AddPeer(peers[i].1.publicKey, peers[i].1.assignedIP);
      RestoreOnePeer(dev.env, peers, i);
    }
    assert peers[..|peers|] == peers;
  }

  /** The second loop: a rule that cannot be added is skipped. */
  method RestoreMap(db: DB, fw: Firewall) returns (ghost rows: RuleRows)
    requires fw.peerRules == map[]
    modifies fw
    ensures Enumerates(rows, db.rules) && fw.peerRules == RestoreRules(fw.env, rows, map[])
  {
    hide Kernel.AddRule, Enumerates;
    var rules := db.GetAllRules();
    rows := rules;
    for i := 0 to |rules|
      invariant fw.peerRules == RestoreRules(fw.env, rules[..i], map[])
    {
      var r := rules[i].1;
      RestoreOneRule(fw.env, rules, i);
      var restored := fw.AddPeerRule(r.srcIP, r.dstIP, r.port, ToU8(r.proto));
    }
    assert rules[..|rules|] == rules;
  }

  /**
    main: on an open database, recreate the device and restore its peers, load the program with a
    fresh map and restore the rules, and serve.
   */
  method Start(env: Env, subnet: Cidr, db: DB) returns (s: Server, ghost ps: PeerRows, ghost rs: RuleRows)
    requires subnet.Cidr4? && UniqueUserCodes(db.codes)
    ensures fresh(s) && s.env == env && s.subnet == subnet && s.db == db && s.Ready() && s.xdp.vars == NewVars(subnet)
    ensures Enumerates(ps, db.peers) && Enumerates(rs, db.rules)
    ensures s.View() == Restore(env, db.View(), ps, rs) && db.View() == old(db.View())
  {
    hide Enumerates, RestorePeers, RestoreRules;
    var dev := new Device(env);
    ps := RestoreDevice(db, dev);
    var fw := new Firewall(env, subnet);
    rs := RestoreMap(db, fw);
    s := new Server(env, subnet, db, dev, fw);
  }

  // ----- Proof steps for the loops -----

  lemma SameCodes(t: Tables, name: string)
    ensures forall ip :: DeletePeerRow(DeleteRulesFrom(t, ip), name).codes == t.codes
  {
  }

  /** Handing over the truncated protocol gives the same key as the row itself. */
  lemma ProtoTwice(env: Env, m: RuleMap, row: RuleRow)
    ensures var truncated := RuleRow(row.srcIP, row.dstIP, row.port, ToU8(row.proto));
            && AddRule(env, m, truncated) == AddRule(env, m, row)
            && RemoveRule(env, m, truncated) == RemoveRule(env, m, row)
  {
    assert ToU8(ToU8(row.proto)) == ToU8(row.proto);
    hide GetRuleKey, Encode, ToU8;
  }

  lemma RestoreOnePeer(env: Env, rows: PeerRows, i: nat)
    requires i < |rows|
    ensures var m, r := RestorePeers(env, rows[..i], map[]), rows[i].1;
            RestorePeers(env, rows[..i + 1], map[]) == IfSome(AddPeer(env, m, r.publicKey, r.assignedIP), m)
  {
    hide AddPeer;
    assert rows[..i + 1][..i] == rows[..i];
  }

  lemma RestoreOneRule(env: Env, rows: RuleRows, i: nat)
    requires i < |rows|
    ensures var m, r := RestoreRules(env, rows[..i], map[]), rows[i].1;
            var row := RuleRow(r.srcIP, r.dstIP, r.port, ToU8(r.proto));
            RestoreRules(env, rows[..i + 1], map[]) == IfSome(AddRule(env, m, row), m)
  {
    ProtoTwice(env, RestoreRules(env, rows[..i], map[]), rows[i].1);
    hide AddRule;
    assert rows[..i + 1][..i] == rows[..i];
  }

  lemma NothingToApprove(t: Tables, userCode: string, token: string)
    ensures !HasPending(t, userCode) ==> Approve(t, userCode, token) == t
  {
  }

  /** The keys of some rows, in a list. */
  function RowKeys(env: Env, rows: RuleRows): set<KeyBytes> {
    set i | 0 <= i < |rows| && RuleKeyBytes(env, rows[i].1).Some? :: RuleKeyBytes(env, rows[i].1).value
  }

  lemma NoRowKeys(env: Env, m: RuleMap, rows: RuleRows)
    ensures m - RowKeys(env, rows[..0]) == m
  {
  }

  lemma RemoveOneRow(env: Env, m: RuleMap, rows: RuleRows, i: nat)
    requires i < |rows|
    ensures var r, before := rows[i].1, m - RowKeys(env, rows[..i]);
            var row := RuleRow(r.srcIP, r.dstIP, r.port, ToU8(r.proto));
            IfSome(RemoveRule(env, before, row), before) == m - RowKeys(env, rows[..i + 1])
  {
    var r, keys := rows[i].1, RowKeys(env, rows[..i]);
    ProtoTwice(env, m - keys, r);
    OneMoreRow(env, rows, i);
    hide RowKeys;
    RemoveOneKey(env, m, keys, r);
    hide RemoveRule, RuleKeyBytes;
  }

  lemma RemoveOneKey(env: Env, m: RuleMap, keys: set<KeyBytes>, r: RuleRow)
    ensures IfSome(RemoveRule(env, m - keys, r), m - keys)
         == m - (keys + (match RuleKeyBytes(env, r) case Some(k) => {k} case None => {}))
  {
  }

  lemma OneMoreRow(env: Env, rows: RuleRows, i: nat)
    requires i < |rows|
    ensures RowKeys(env, rows[..i + 1])
         == RowKeys(env, rows[..i]) + (match RuleKeyBytes(env, rows[i].1) case Some(k) => {k} case None => {})
  {
    hide RuleKeyBytes;
    var k := RuleKeyBytes(env, rows[i].1);
    var more, fewer := rows[..i + 1], rows[..i];
    assert more[i] == rows[i] && forall j :: 0 <= j < i ==> more[j] == fewer[j];
    forall x ensures x in RowKeys(env, more) <==> x in RowKeys(env, fewer) || k == Some(x) {
      if x in RowKeys(env, fewer) {
        var j :| 0 <= j < i && RuleKeyBytes(env, fewer[j].1) == Some(x);
        assert RuleKeyBytes(env, more[j].1) == Some(x);
      }
    }
  }

  lemma RowKeysOfTable(env: Env, rows: RuleRows, table: map<nat, RuleRow>)
    requires Enumerates(rows, table)
    ensures RowKeys(env, rows) == KeysOf(env, table)
  {
  }
}
