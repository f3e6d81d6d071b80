/** What each SQL statement means for the constraints, for later statements and for later answers. */
module Statements {
  import opened Wrappers
  import opened Tables
  import opened Handlers

  // ----- Peers -----

  /** A row is inserted exactly if its name is new and the UNIQUE constraint survives, and deleting it undoes that. */
  ghost predicate PeerInserted(t: Tables, name: string, row: PeerRow, ok: bool, u: Tables) {
    && (UniqueIPs(t.peers) ==> UniqueIPs(u.peers) && (ok <==> name !in t.peers && UniqueIPs(t.peers[name := row])))
    && (forall n :: n in t.peers ==> n in u.peers && u.peers[n] == t.peers[n])
    && (ok ==> name in u.peers && u.peers[name] == row && DeletePeerRow(u, name) == t)
    && (!ok ==> u == t)
  }

  lemma InsertingPeer(t: Tables, name: string, row: PeerRow)
    ensures var u := InsertPeer(t, name, row); PeerInserted(t, name, row, u.Some?, IfSome(u, t))
  {
    var u := InsertPeer(t, name, row);
    if u.Some? {
      assert DeletePeerRow(u.value, name) == t;
    } else if name !in t.peers {
      var n :| n in t.peers && t.peers[n].assignedIP == row.assignedIP;
      var after := t.peers[name := row];
      assert n in after && name in after && after[n].assignedIP == after[name].assignedIP;
    }
  }

  /** The name and the address are free again: inserting the row gives the old tables back. */
  ghost predicate PeerDeleted(t: Tables, name: string, u: Tables) {
    && name !in u.peers
    && (UniqueIPs(t.peers) ==>
         UniqueIPs(u.peers) && (name in t.peers ==> InsertPeer(u, name, t.peers[name]) == Some(t)))
    && (name !in t.peers ==> u == t)
  }

  lemma DeletingPeer(t: Tables, name: string)
    ensures PeerDeleted(t, name, DeletePeerRow(t, name))
  {
    var u := DeletePeerRow(t, name);
    if name in t.peers {
      assert u.peers[name := t.peers[name]] == t.peers;
    } else {
      assert u.peers == t.peers;
    }
  }

  // ----- Device codes -----

  /** The new code can be looked up both ways, and its polls are answered "pending" for 600 seconds, then "expired". */
  ghost predicate CodeIssuedAt(t: Tables, dc: string, userCode: string, now: int, ok: bool, u: Tables) {
    && (UniqueUserCodes(t.codes) ==>
         && UniqueUserCodes(u.codes)
         && (ok <==> dc !in t.codes && UniqueUserCodes(t.codes[dc := NewRow(userCode, now)]))
         && (ok ==> CodeByUser(u, userCode) == CodeByDevice(u, dc)))
    && (forall d :: d in t.codes ==> d in u.codes && u.codes[d] == t.codes[d])
    && (ok ==> forall at :: TokenResponse(CodeByDevice(u, dc), at)
                            == if at <= now + 600 then TokenPending else TokenExpired)
    && (!ok ==> u == t)
  }

  lemma IssuingCode(t: Tables, dc: string, userCode: string, now: int)
    ensures var u := InsertCode(t, dc, NewRow(userCode, now));
            CodeIssuedAt(t, dc, userCode, now, u.Some?, IfSome(u, t))
  {
    var row := NewRow(userCode, now);
    var u := InsertCode(t, dc, row);
    var after := t.codes[dc := row];
    if u.Some? {
      assert u.value.codes[dc].userCode == userCode;
    } else if dc !in t.codes {
      var d :| d in t.codes && t.codes[d].userCode == userCode;
      assert d in after && dc in after && after[d].userCode == after[dc].userCode;
    }
  }

  /** Exactly the row of code d has changed, and it was waiting for a decision on the user code. */
  ghost predicate OnlyDecided(t: Tables, userCode: string, d: string, row: CodeRow, u: Tables) {
    d in t.codes && PendingFor(t.codes[d], userCode) && u == t.(codes := t.codes[d := row])
  }

  /** With unique user codes an approval succeeds exactly if it approved one code; nothing is left to decide. */
  ghost predicate CodeApproved(t: Tables, userCode: string, token: string, ok: bool, u: Tables) {
    && !HasPending(u, userCode)
    && (UniqueUserCodes(t.codes) ==>
         && UniqueUserCodes(u.codes)
         && (ok <==> exists d :: d in t.codes
                          && OnlyDecided(t, userCode, d, t.codes[d].(status := Approved, token := Some(token)), u)))
    && (!ok ==> u == t)
    && (ok ==> exists d :: d in t.codes && forall at :: at < t.codes[d].expiresAt ==> HasRedeemable(u, token, at))
  }

  lemma Approving(t: Tables, userCode: string, token: string)
    ensures CodeApproved(t, userCode, token, HasPending(t, userCode), Approve(t, userCode, token))
  {
    var u := Approve(t, userCode, token);
    if d :| d in t.codes && PendingFor(t.codes[d], userCode) {
      var row := t.codes[d].(status := Approved, token := Some(token));
      assert u.codes[d] == row;
      forall at | at < t.codes[d].expiresAt ensures HasRedeemable(u, token, at) {
        assert Redeemable(u.codes[d], token, at);
      }
      if UniqueUserCodes(t.codes) {
        assert u.codes == t.codes[d := row];
        assert OnlyDecided(t, userCode, d, row, u);
      }
    } else {
      assert u.codes == t.codes;
    }
  }

  /** A denial changes the row of at most one code, takes no token from anybody, and leaves nothing to decide. */
  ghost predicate CodeDenied(t: Tables, userCode: string, u: Tables) {
    && !HasPending(u, userCode)
    && (forall token, at :: HasRedeemable(u, token, at) <==> HasRedeemable(t, token, at))
    && (UniqueUserCodes(t.codes) ==>
         && UniqueUserCodes(u.codes)
         && (HasPending(t, userCode) <==>
              exists d :: d in t.codes && OnlyDecided(t, userCode, d, t.codes[d].(status := Denied), u)))
    && (!HasPending(t, userCode) ==> u == t)
  }

  lemma Denying(t: Tables, userCode: string)
    ensures CodeDenied(t, userCode, Deny(t, userCode))
  {
    var u := Deny(t, userCode);
    forall token, at ensures HasRedeemable(u, token, at) <==> HasRedeemable(t, token, at) {
      if d :| d in t.codes && Redeemable(t.codes[d], token, at) {
        assert Redeemable(u.codes[d], token, at);
      }
    }
    if d :| d in t.codes && PendingFor(t.codes[d], userCode) {
      if UniqueUserCodes(t.codes) {
        assert u.codes == t.codes[d := t.codes[d].(status := Denied)];
        assert OnlyDecided(t, userCode, d, t.codes[d].(status := Denied), u);
      }
    } else {
      assert u.codes == t.codes;
    }
  }

  /** The first of two decisions on a user code stands. */
  lemma FirstDecisionStands(t: Tables, userCode: string, token: string, other: string)
    ensures var approved, denied := Approve(t, userCode, token), Deny(t, userCode);
            && Deny(approved, userCode) == approved && Approve(approved, userCode, other) == approved
            && Approve(denied, userCode, token) == denied && Deny(denied, userCode) == denied
  {
  }

  ghost predicate DistinctTokens(codes: map<string, CodeRow>) {
    forall d, e :: d in codes && e in codes && codes[d].token.Some? && codes[d].token == codes[e].token ==> d == e
  }

  /**
    The token cannot be consumed again at this or any later time, every other token is as it was, and
    with distinct tokens the consumption succeeds exactly if it removed one code.
   */
  ghost predicate TokenConsumed(t: Tables, token: string, now: int, ok: bool, u: Tables) {
    && (forall at :: at >= now ==> !HasRedeemable(u, token, at))
    && (forall other, at :: other != token ==> (HasRedeemable(u, other, at) <==> HasRedeemable(t, other, at)))
    && (DistinctTokens(t.codes) ==>
         (ok <==> exists d :: d in t.codes && Redeemable(t.codes[d], token, now) && u == t.(codes := t.codes - {d})))
    && (!ok ==> u == t)
  }

  lemma Consuming(t: Tables, token: string, now: int)
    ensures TokenConsumed(t, token, now, HasRedeemable(t, token, now), Consume(t, token, now))
  {
    var u := Consume(t, token, now);
    forall other, at | other != token ensures HasRedeemable(u, other, at) <==> HasRedeemable(t, other, at) {
      if d :| d in t.codes && Redeemable(t.codes[d], other, at) {
        assert d in u.codes && Redeemable(u.codes[d], other, at);
      }
    }
    if d :| d in t.codes && Redeemable(t.codes[d], token, now) {
      if DistinctTokens(t.codes) {
        assert u.codes == t.codes - {d};
      }
    } else {
      assert u.codes == t.codes;
    }
  }

  /** From now on both tables answer every poll and every consumption alike. */
  ghost predicate AnswerAlike(t: Tables, u: Tables, now: int) {
    && (forall dc, at :: at >= now ==> TokenResponse(CodeByDevice(t, dc), at) == TokenResponse(CodeByDevice(u, dc), at))
    && (forall token, at :: at >= now ==> (HasRedeemable(t, token, at) <==> HasRedeemable(u, token, at)))
  }

  /** No code that has expired is left, and the loss of those that had does not show. */
  ghost predicate Cleaned(t: Tables, now: int, u: Tables) {
    && (forall d :: d in u.codes ==> u.codes[d].expiresAt >= now)
    && (forall d :: d in t.codes && t.codes[d].expiresAt >= now ==> d in u.codes && u.codes[d] == t.codes[d])
    && AnswerAlike(t, u, now)
  }

  lemma Cleaning(t: Tables, now: int)
    ensures Cleaned(t, now, CleanExpired(t, now))
  {
    var u := CleanExpired(t, now);
    forall token, at | at >= now ensures HasRedeemable(t, token, at) <==> HasRedeemable(u, token, at) {
      if d :| d in t.codes && Redeemable(t.codes[d], token, at) {
        assert d in u.codes && Redeemable(u.codes[d], token, at);
      }
    }
  }

  // ----- Firewall rules -----

  /** A rule is inserted exactly if the rules stay unique, under an id above all others; deleting it undoes that. */
  ghost predicate RuleInserted(t: Tables, row: RuleRow, id: Option<nat>, u: Tables) {
    && (Valid(t) ==> Valid(u) && (id.Some? <==> UniqueRules(t.rules[t.nextId := row])))
    && (id.Some? ==>
         && id.value in u.rules && u.rules[id.value] == row
         && (Valid(t) ==> (forall i :: i in t.rules ==> i < id.value) && DeleteRuleRow(u, id.value).rules == t.rules))
    && (id.None? ==> u == t)
  }

  lemma InsertingRule(t: Tables, row: RuleRow)
    ensures var u := InsertRule(t, row);
            RuleInserted(t, row, if u.Some? then Some(t.nextId) else None, IfSome(u, t))
  {
    hide UniqueIPs, UniqueUserCodes;
    var u := InsertRule(t, row);
    if u.Some? && Valid(t) {
      assert DeleteRuleRow(u.value, t.nextId).rules == t.rules;
    } else if u.None? && Valid(t) {
      var i :| i in t.rules && t.rules[i] == row;
      var after := t.rules[t.nextId := row];
      assert i in after && t.nextId in after && after[i] == after[t.nextId];
    }
  }
}
