/** internal/database.go: the handle whose methods read and change the three tables. */
module Database {
  import opened Wrappers
  import opened Words
  import opened DottedQuad
  import opened Subnets
  import opened Allocator
  import opened Tables
  import opened Kernel
  import opened Handlers
  import opened Statements

  class DB {
    var peers: map<string, PeerRow>
    var codes: map<string, CodeRow>
    var rules: map<nat, RuleRow>
    var nextId: nat

    function View(): Tables
      reads this
    {
      Tables(peers, codes, rules, nextId)
    }

    constructor ()
      ensures View() == EMPTY
    {
      peers, codes, rules, nextId := map[], map[], map[], 1;
    }

    // ----- Peers -----

    method AddPeer(name: string, publicKey: string, assignedIP: string) returns (ok: bool)
      modifies this
      ensures ok == InsertPeer(old(View()), name, PeerRow(publicKey, assignedIP)).Some?
      ensures View() == IfSome(InsertPeer(old(View()), name, PeerRow(publicKey, assignedIP)), old(View()))
      ensures PeerInserted(old(View()), name, PeerRow(publicKey, assignedIP), ok, View())
    {
      InsertingPeer(View(), name, PeerRow(publicKey, assignedIP));
      hide PeerInserted;
      ok := name !in peers && !IPTaken(peers, assignedIP);
      if ok {
        peers := peers[name := PeerRow(publicKey, assignedIP)];
      }
    }

    method RemovePeer(name: string)
      modifies this
      ensures View() == DeletePeerRow(old(View()), name)
      ensures PeerDeleted(old(View()), name, View())
    {
      DeletingPeer(View(), name);
      hide PeerDeleted;
      peers := peers - {name};
    }

    method GetPeerByName(name: string) returns (row: Option<PeerRow>)
      ensures row == if name in peers then Some(peers[name]) else None
    {
      row := if name in peers then Some(peers[name]) else None;
    }

    method GetAllPeers() returns (rows: seq<(string, PeerRow)>)
      ensures Enumerates(rows, peers)
    {
      rows := Rows(peers);
    }

    /**
      The first free address from base + 2 up to the broadcast address, exclusive. `candidate` is
      a uint32 throughout: incrementing it never overflows.
     */
    method NextAvailableIP(c: Cidr) returns (ip: Option<string>)
      ensures ip == Allocate(c, UsedIPs(peers))
    {
      if !c.Cidr4? {
        return None;
      }
      var used: set<string> := {};
      var left := peers.Keys;
      while left != {}
        invariant left <= peers.Keys
        invariant used == UsedIPs(peers - left)
      {
        var name :| name in left;
        AddressAdded(peers, left, name);
        used := used + {peers[name].assignedIP};
        left := left - {name};
      }
      assert peers - left == peers;

      BroadcastIsLast(c);
      var candidate: U32 := (Base(c) + 2) % 0x1_0000_0000;
      var broadcast: U32 := Broadcast(c);
      while candidate < broadcast
        invariant FirstFree(used, candidate, broadcast) == Allocate(c, used)
        decreases broadcast - candidate
      {
        if Print(candidate) !in used {
          return Some(Print(candidate));
        }
        candidate := candidate + 1;
      }
      ip := None;
    }

    // ----- Device codes -----

    method CreateDeviceCode(deviceCode: string, userCode: string, now: int) returns (ok: bool)
      modifies this
      ensures ok == InsertCode(old(View()), deviceCode, NewRow(userCode, now)).Some?
      ensures View() == IfSome(InsertCode(old(View()), deviceCode, NewRow(userCode, now)), old(View()))
      ensures CodeIssuedAt(old(View()), deviceCode, userCode, now, ok, View())
    {
      IssuingCode(View(), deviceCode, userCode, now);
      hide CodeIssuedAt;
      ok := deviceCode !in codes && forall d :: d in codes ==> codes[d].userCode != userCode;
      if ok {
        codes := codes[deviceCode := CodeRow(userCode, now + DEVICE_CODE_EXPIRY, Pending, None)];
      }
    }

    method GetDeviceCodeByUserCode(userCode: string) returns (row: Option<CodeRow>)
      requires UniqueUserCodes(codes)
      ensures row == CodeByUser(View(), userCode)
    {
      if d :| d in codes && codes[d].userCode == userCode {
        row := Some(codes[d]);
      } else {
        row := None;
      }
    }

    method GetDeviceCodeByDeviceCode(deviceCode: string) returns (row: Option<CodeRow>)
      ensures row == CodeByDevice(View(), deviceCode)
    {
      row := if deviceCode in codes then Some(codes[deviceCode]) else None;
    }

    /** The number of affected rows decides about success. */
    method ApproveDeviceCode(userCode: string, accessToken: string) returns (ok: bool)
      modifies this
      ensures ok == HasPending(old(View()), userCode)
      ensures View() == Approve(old(View()), userCode, accessToken)
      ensures CodeApproved(old(View()), userCode, accessToken, ok, View())
    {
      Approving(View(), userCode, accessToken);
      hide CodeApproved;
      ok := exists d :: d in codes && PendingFor(codes[d], userCode);
      codes := map d | d in codes ::
        if PendingFor(codes[d], userCode) then codes[d].(status := Approved, token := Some(accessToken)) else codes[d];
    }

    method DenyDeviceCode(userCode: string)
      modifies this
      ensures View() == Deny(old(View()), userCode)
      ensures CodeDenied(old(View()), userCode, View())
    {
      Denying(View(), userCode);
      hide CodeDenied;
      codes := map d | d in codes :: if PendingFor(codes[d], userCode) then codes[d].(status := Denied) else codes[d];
    }

    method ConsumeAccessToken(accessToken: string, now: int) returns (consumed: bool)
      modifies this
      ensures consumed == HasRedeemable(old(View()), accessToken, now)
      ensures View() == Consume(old(View()), accessToken, now)
      ensures TokenConsumed(old(View()), accessToken, now, consumed, View())
    {
      Consuming(View(), accessToken, now);
      hide TokenConsumed;
      consumed := exists d :: d in codes && Redeemable(codes[d], accessToken, now);
      codes := map d | d in codes && !Redeemable(codes[d], accessToken, now) :: codes[d];
    }

    method CleanExpiredDeviceCodes(now: int)
      modifies this
      ensures View() == CleanExpired(old(View()), now)
      ensures Cleaned(old(View()), now, View())
    {
      Cleaning(View(), now);
      hide Cleaned;
      codes := map d | d in codes && !(codes[d].expiresAt < now) :: codes[d];
    }

    // ----- Firewall rules -----

    method AddRule(row: RuleRow) returns (id: Option<nat>)
      modifies this
      ensures id == if InsertRule(old(View()), row).Some? then Some(old(nextId)) else None
      ensures View() == IfSome(InsertRule(old(View()), row), old(View()))
      ensures RuleInserted(old(View()), row, id, View())
    {
      InsertingRule(View(), row);
      hide RuleInserted;
      if row in rules.Values {
        id := None;
      } else {
        id := Some(nextId);
        rules, nextId := rules[nextId := row], nextId + 1;
      }
    }

    method RemoveRule(id: int)
      modifies this
      ensures View() == DeleteRuleRow(old(View()), id)
    {
      rules := map i | i in rules && i != id :: rules[i];
    }

    method GetRuleByID(id: int) returns (row: Option<RuleRow>)
      ensures row == if id >= 0 && id in rules then Some(rules[id]) else None
    {
      row := if id >= 0 && id in rules then Some(rules[id]) else None;
    }

    method GetAllRules() returns (rows: seq<(nat, RuleRow)>)
      ensures Enumerates(rows, rules)
    {
      rows := Rows(rules);
    }

    /** The rows are collected first and deleted by a second statement. */
    method RemoveRulesForPeer(srcIP: string) returns (deleted: seq<(nat, RuleRow)>)
      modifies this
      ensures Enumerates(deleted, RulesFrom(old(View()), srcIP))
      ensures View() == DeleteRulesFrom(old(View()), srcIP)
    {
      deleted := Rows(RulesFrom(View(), srcIP));
      rules := map i | i in rules && rules[i].srcIP != srcIP :: rules[i];
    }
  }

  /** Iterating over a query's rows, in an order that the query does not fix. */
  method Rows<K(!new, ==), V>(table: map<K, V>) returns (rows: seq<(K, V)>)
    ensures Enumerates(rows, table)
  {
    rows := [];
    var left := table.Keys;
    while left != {}
      invariant left <= table.Keys
      invariant forall i :: 0 <= i < |rows| ==>
                  rows[i].0 in table && rows[i].0 !in left && table[rows[i].0] == rows[i].1
      invariant forall k :: k in table && k !in left ==> exists i :: 0 <= i < |rows| && rows[i].0 == k
      invariant forall i, j :: 0 <= i < j < |rows| ==> rows[i].0 != rows[j].0
    {
      var k :| k in left;
      ghost var before := rows;
      rows := rows + [(k, table[k])];
      left := left - {k};
      assert rows[|before|].0 == k;
      assert forall i :: 0 <= i < |before| ==> rows[i] == before[i];
    }
  }

  lemma AddressAdded(peers: map<string, PeerRow>, left: set<string>, name: string)
    requires left <= peers.Keys && name in left
    ensures UsedIPs(peers - (left - {name})) == UsedIPs(peers - left) + {peers[name].assignedIP}
  {
    var more, fewer := peers - (left - {name}), peers - left;
    assert name in more;
    forall ip | ip in UsedIPs(more) ensures ip in UsedIPs(fewer) || ip == peers[name].assignedIP {
      var n :| n in more && more[n].assignedIP == ip;
      assert n == name || n in fewer;
    }
    forall ip | ip in UsedIPs(fewer) ensures ip in UsedIPs(more) {
      var n :| n in fewer && fewer[n].assignedIP == ip;
      assert n in more;
    }
  }
}
