/** The WireGuard device against the peers table: what each handler keeps, and exactly when. */
module PeerSync {
  import opened Wrappers
  import opened Words
  import opened DottedQuad
  import opened NetIP
  import opened Subnets
  import opened Allocator
  import opened Tables
  import opened Kernel
  import opened Handlers
  import opened RuleSync

  type Peers = map<string, PeerRow>

  /** Every address came from the allocator, and none is assigned twice. */
  ghost predicate PeersFit(c: Cidr, peers: Peers) {
    UniqueIPs(peers) && forall n :: n in peers ==> AllocatableText(c, peers[n].assignedIP)
  }

  /** The row's key and network, when it has both. */
  function Wire(env: Env, row: PeerRow): Option<(seq<Byte>, Network)> {
    match (env.decodeKey(row.publicKey), ParseSlash32(env, row.assignedIP))
    case (Some(k), Some(a)) => Some((k, a))
    case _ => None
  }

  ghost predicate Wired(env: Env, wg: PeerTable, row: PeerRow) {
    var w := Wire(env, row);
    w.Some? ==> w.value.0 in wg && wg[w.value.0] == Some(w.value.1)
  }

  ghost predicate Owned(env: Env, peers: Peers, k: seq<Byte>) {
    exists n :: n in peers && Wire(env, peers[n]).Some? && Wire(env, peers[n]).value.0 == k
  }

  /** Every row that can be configured is, with its address, and the device has no other peer. */
  ghost predicate DeviceAgrees(env: Env, wg: PeerTable, peers: Peers) {
    && (forall n :: n in peers ==> Wired(env, wg, peers[n]))
    && (forall k :: k in wg ==> Owned(env, peers, k))
  }

  predicate SharedKey(env: Env, p: PeerRow, q: PeerRow) {
    env.decodeKey(p.publicKey).Some? && env.decodeKey(p.publicKey) == env.decodeKey(q.publicKey)
  }

  ghost predicate DistinctPeerKeys(env: Env, peers: Peers) {
    forall n, m :: n in peers && m in peers && SharedKey(env, peers[n], peers[m]) ==> n == m
  }

  lemma FitParses(env: Env, c: Cidr, s: string)
    requires AllocatableText(c, s)
    ensures Parse(s).Some? && ParseSlash32(env, s) == Some(Net4(Parse(s).value))
  {
    hide Print, Separator;
    var a: U32 :| Allocatable(c, a) && s == Print(a);
    ParseIffPrinted(s, a);
    ParseIPOfPrint(env, a);
  }

  lemma SameNetwork(env: Env, c: Cidr, s: string, t: string)
    requires AllocatableText(c, s) && AllocatableText(c, t) && ParseSlash32(env, s) == ParseSlash32(env, t)
    ensures s == t
  {
    hide AllocatableText, Parse, ParseSlash32;
    FitParses(env, c, s);
    FitParses(env, c, t);
    ParseInjective(s, t);
  }

  /** With distinct addresses, agreement is possible only for distinct keys. */
  lemma AgreementNeedsDistinct(env: Env, c: Cidr, wg: PeerTable, peers: Peers)
    requires PeersFit(c, peers) && DeviceAgrees(env, wg, peers)
    ensures DistinctPeerKeys(env, peers)
  {
    hide ParseSlash32, AllocatableText;
    forall n, m | n in peers && m in peers && SharedKey(env, peers[n], peers[m]) ensures n == m {
      FitParses(env, c, peers[n].assignedIP);
      FitParses(env, c, peers[m].assignedIP);
      assert Wired(env, wg, peers[n]) && Wired(env, wg, peers[m]);
      SameNetwork(env, c, peers[n].assignedIP, peers[m].assignedIP);
    }
  }

  // ----- Adding a peer -----

  predicate NewToDevice(env: Env, wg: PeerTable, publicKey: string) {
    env.decodeKey(publicKey).Some? ==> env.decodeKey(publicKey).value !in wg
  }

  lemma OwnedAfterInsert(env: Env, peers: Peers, name: string, row: PeerRow, k: seq<Byte>)
    requires name !in peers
    ensures Owned(env, peers[name := row], k)
       <==> Owned(env, peers, k) || (Wire(env, row).Some? && Wire(env, row).value.0 == k)
  {
    hide Wire;
    var after := peers[name := row];
    if Wire(env, row).Some? && Wire(env, row).value.0 == k {
      assert name in after && after[name] == row;
    }
    if n :| n in peers && Wire(env, peers[n]).Some? && Wire(env, peers[n]).value.0 == k {
      assert n in after && after[n] == peers[n];
    }
  }

  /** A row added to the table and, if it can be, to the device. */
  lemma SyncedAdd(env: Env, c: Cidr, wg: PeerTable, peers: Peers, name: string, row: PeerRow)
    requires name !in peers && PeersFit(c, peers[name := row]) && DeviceAgrees(env, wg, peers)
    ensures DeviceAgrees(env, IfSome(AddPeer(env, wg, row.publicKey, row.assignedIP), wg), peers[name := row])
       <==> NewToDevice(env, wg, row.publicKey)
  {
    hide ParseSlash32, AllocatableText;
    var after := peers[name := row];
    assert after[name] == row;
    FitParses(env, c, row.assignedIP);
    forall k
      ensures Owned(env, after, k) <==> Owned(env, peers, k) || (Wire(env, row).Some? && Wire(env, row).value.0 == k)
    {
      OwnedAfterInsert(env, peers, name, row, k);
    }
    match env.decodeKey(row.publicKey)
    case None =>
      hide Owned;
      forall n | n in after ensures Wired(env, wg, after[n]) {
        assert n != name ==> n in peers && after[n] == peers[n];
      }
    case Some(key) =>
      var net := ParseSlash32(env, row.assignedIP).value;
      if key in wg {
        TakenKey(env, c, wg, peers, name, row, key, Assign(wg, key, net));
      } else {
        hide Owned;
        var wg' := Assign(wg, key, net);
        assert IfSome(AddPeer(env, wg, row.publicKey, row.assignedIP), wg) == wg';
        forall n | n in after ensures Wired(env, wg', after[n]) {
          if n != name {
            OtherStaysWired(env, c, wg, peers, name, row, n);
          }
        }
      }
  }

  /** A key that the device has already belongs to another row, so the new table cannot be agreed with. */
  lemma TakenKey(
    env: Env, c: Cidr, wg: PeerTable, peers: Peers, name: string, row: PeerRow, key: seq<Byte>, wg': PeerTable)
    requires name !in peers && PeersFit(c, peers[name := row]) && DeviceAgrees(env, wg, peers)
    requires env.decodeKey(row.publicKey) == Some(key) && key in wg
    ensures !DeviceAgrees(env, wg', peers[name := row])
  {
    hide ParseSlash32, AllocatableText;
    assert Owned(env, peers, key);
    var n :| n in peers && Wire(env, peers[n]).Some? && Wire(env, peers[n]).value.0 == key;
    var after := peers[name := row];
    assert n in after && name in after && after[n] == peers[n] && after[name] == row;
    if DeviceAgrees(env, wg', after) {
      AgreementNeedsDistinct(env, c, wg', after);
    }
  }

  lemma OtherStaysWired(env: Env, c: Cidr, wg: PeerTable, peers: Peers, name: string, row: PeerRow, n: string)
    requires name !in peers && PeersFit(c, peers[name := row]) && n in peers && Wired(env, wg, peers[n])
    requires env.decodeKey(row.publicKey).Some? && ParseSlash32(env, row.assignedIP).Some?
    requires env.decodeKey(row.publicKey).value !in wg
    ensures var key, net := env.decodeKey(row.publicKey).value, ParseSlash32(env, row.assignedIP).value;
            Wired(env, Assign(wg, key, net), peers[n])
  {
    hide ParseSlash32, AllocatableText;
    var after := peers[name := row];
    assert after[n] == peers[n] && after[name] == row && n != name;
    if Wire(env, peers[n]).Some? && ParseSlash32(env, peers[n].assignedIP) == ParseSlash32(env, row.assignedIP) {
      SameNetwork(env, c, peers[n].assignedIP, row.assignedIP);
    }
  }

  /** Removing a row and its peer keeps agreement. */
  lemma SyncedRemove(env: Env, c: Cidr, wg: PeerTable, peers: Peers, name: string)
    requires name in peers && PeersFit(c, peers) && DeviceAgrees(env, wg, peers)
    requires env.decodeKey(peers[name].publicKey).Some?
    ensures PeersFit(c, peers - {name})
    ensures DeviceAgrees(env, wg - {env.decodeKey(peers[name].publicKey).value}, peers - {name})
  {
    hide ParseSlash32, AllocatableText;
    AgreementNeedsDistinct(env, c, wg, peers);
    var key, after := env.decodeKey(peers[name].publicKey).value, peers - {name};
    forall n | n in after ensures Wired(env, wg - {key}, after[n]) {
      assert Wired(env, wg, peers[n]);
    }
    forall k | k in wg - {key} ensures Owned(env, after, k) {
      var n :| n in peers && Wire(env, peers[n]).Some? && Wire(env, peers[n]).value.0 == k;
      assert n in after;
    }
  }

  // ----- The two handlers -----

  lemma StoreKeeps(env: Env, c: Cidr, s: Sys, publicKey: string, name: string, ip: string)
    requires PeersFit(c, s.db.peers) && DeviceAgrees(env, s.wg, s.db.peers)
    requires AllocatableText(c, ip) && ip !in UsedIPs(s.db.peers)
    ensures var t := StorePeer(env, s, publicKey, name, ip).0;
            && PeersFit(c, t.db.peers)
            && (t.db.peers == s.db.peers ==> t == s)
            && (t.db.peers != s.db.peers ==>
                 (DeviceAgrees(env, t.wg, t.db.peers) <==> NewToDevice(env, s.wg, publicKey)))
  {
    hide AllocatableText, AddPeer, DeviceAgrees;
    var row := PeerRow(publicKey, ip);
    if InsertPeer(s.db, name, row).Some? {
      FitsAfterInsert(c, s.db.peers, name, row);
      var after := s.db.peers[name := row];
      assert name in after && name !in s.db.peers;
      hide PeersFit, UsedIPs;
      SyncedAdd(env, c, s.wg, s.db.peers, name, row);
    }
  }

  lemma FitsAfterInsert(c: Cidr, peers: Peers, name: string, row: PeerRow)
    requires PeersFit(c, peers) && name !in peers
    requires AllocatableText(c, row.assignedIP) && row.assignedIP !in UsedIPs(peers)
    ensures PeersFit(c, peers[name := row])
  {
  }

  /**
    JoinHandler takes a free allocatable address. Agreement survives an enrolment exactly when the
    key does not decode (the row then stands for nothing) or is not on the device yet.
   */
  lemma EnrolKeeps(env: Env, c: Cidr, s: Sys, publicKey: string, name: string)
    requires PeersFit(c, s.db.peers) && DeviceAgrees(env, s.wg, s.db.peers)
    ensures var t := Enrol(env, c, s, publicKey, name).0;
            && PeersFit(c, t.db.peers)
            && (t.db.peers == s.db.peers ==> t == s)
            && (t.db.peers != s.db.peers ==>
                 (DeviceAgrees(env, t.wg, t.db.peers) <==> NewToDevice(env, s.wg, publicKey)))
  {
    hide DeviceAgrees, PeersFit, StorePeer, AllocatableText;
    var ip := Allocate(c, UsedIPs(s.db.peers));
    if ip.Some? {
      AllocatedIsFree(c, UsedIPs(s.db.peers));
      hide Allocate;
      StoreKeeps(env, c, s, publicKey, PeerName(name, ip.value), ip.value);
    }
  }

  lemma JoinKeeps(env: Env, c: Cidr, now: int, s: Sys, token: string, publicKey: string, name: string)
    requires PeersFit(c, s.db.peers) && DeviceAgrees(env, s.wg, s.db.peers)
    ensures var t := JoinEffect(env, c, now, s, token, publicKey, name).0;
            && PeersFit(c, t.db.peers)
            && (t.db.peers == s.db.peers ==> t.wg == s.wg)
            && (t.db.peers != s.db.peers ==>
                 (DeviceAgrees(env, t.wg, t.db.peers) <==> NewToDevice(env, s.wg, publicKey)))
  {
    hide DeviceAgrees, PeersFit, Enrol, HasRedeemable;
    EnrolKeeps(env, c, s.(db := Consume(s.db, token, now)), publicKey, name);
  }

  /** DeletePeer keeps agreement; a row whose key does not decode it does not touch at all. */
  lemma DropPeerKeepsDevice(env: Env, c: Cidr, s: Sys, name: string)
    requires PeersFit(c, s.db.peers) && DeviceAgrees(env, s.wg, s.db.peers)
    ensures var (t, r) := DropPeerEffect(env, s, name);
            && PeersFit(c, t.db.peers) && DeviceAgrees(env, t.wg, t.db.peers)
            && (r == NoContent ==> t.db.peers == s.db.peers - {name})
            && (r != NoContent ==> t == s)
  {
    hide DeviceAgrees, PeersFit, KeysOf;
    if name in s.db.peers && env.decodeKey(s.db.peers[name].publicKey).Some? {
      SyncedRemove(env, c, s.wg, s.db.peers, name);
    }
  }

  /** DeletePeer succeeds on a stored peer exactly if its public key decodes. */
  lemma DropPeerSucceedsIff(env: Env, s: Sys, name: string)
    requires name in s.db.peers && name != ""
    ensures var (t, r) := DropPeerEffect(env, s, name);
            && (r == NoContent <==> env.decodeKey(s.db.peers[name].publicKey).Some?)
            && (name !in t.db.peers <==> r == NoContent)
            && (r != NoContent ==> r == ServerError && t == s)
  {
    hide KeysOf;
  }

  lemma OthersKeepPeers(env: Env, c: Cidr, now: int, s: Sys, req: Request)
    requires !req.Join? && !req.DropPeer?
    ensures var t := Effect(env, c, now, s, req).0; t.wg == s.wg && t.db.peers == s.db.peers
  {
    hide Acceptable, AddRule, Unmap, HasPending, CodeByUser, VerifyRefusal, TokenResponse, ViewResponse;
  }

  // ----- Startup -----

  lemma {:induction false} RestoreDistinct(env: Env, c: Cidr, rows: seq<(string, PeerRow)>, peers: Peers)
    requires Enumerates(rows, peers) && PeersFit(c, peers) && DistinctPeerKeys(env, peers)
    ensures DeviceAgrees(env, RestorePeers(env, rows, map[]), peers)
  {
    if rows == [] {
      assert peers == map[];
    } else {
      var n := |rows| - 1;
      var (name, row) := rows[n];
      var before := peers - {name};
      EnumeratesPrefix(rows, peers);
      hide AllocatableText, ParseSlash32, Enumerates, AddPeer;
      assert peers[name] == row && PeersFit(c, before) && DistinctPeerKeys(env, before);
      RestoreDistinct(env, c, rows[..n], before);
      var wg := RestorePeers(env, rows[..n], map[]);
      SyncedAdd(env, c, wg, before, name, row);
      assert peers == before[name := row];
      NotOwned(env, peers, name);
    }
  }

  lemma NotOwned(env: Env, peers: Peers, name: string)
    requires name in peers && DistinctPeerKeys(env, peers)
    ensures var key := env.decodeKey(peers[name].publicKey); key.Some? ==> !Owned(env, peers - {name}, key.value)
  {
  }

  /** In whatever order the rows come, startup agrees with the table exactly when the decoded keys are distinct. */
  lemma RestoreDeviceIff(env: Env, c: Cidr, rows: seq<(string, PeerRow)>, peers: Peers)
    requires Enumerates(rows, peers) && PeersFit(c, peers)
    ensures DeviceAgrees(env, RestorePeers(env, rows, map[]), peers) <==> DistinctPeerKeys(env, peers)
  {
    hide AllocatableText, ParseSlash32, Enumerates, AddPeer;
    if DistinctPeerKeys(env, peers) {
      RestoreDistinct(env, c, rows, peers);
    }
    if DeviceAgrees(env, RestorePeers(env, rows, map[]), peers) {
      AgreementNeedsDistinct(env, c, RestorePeers(env, rows, map[]), peers);
    }
  }

  /** Agreement determines the device. */
  lemma DeviceIsUnique(env: Env, wg: PeerTable, wg': PeerTable, peers: Peers)
    requires DeviceAgrees(env, wg, peers) && DeviceAgrees(env, wg', peers)
    ensures wg == wg'
  {
  }

  // ----- Two rows with one key -----

  lemma {:induction false} RestoredRowHasKey(env: Env, rows: seq<(string, PeerRow)>, i: nat, k: seq<Byte>)
    requires i < |rows| && Wire(env, rows[i].1).Some? && Wire(env, rows[i].1).value.0 == k
    ensures k in RestorePeers(env, rows, map[])
  {
    var n := |rows| - 1;
    if i == n {
    } else {
      RestoredRowHasKey(env, rows[..n], i, k);
    }
  }

  /**
    publicKey is not UNIQUE. When two rows have one decoded key, deleting either leaves the device
    without the key, although every restart would configure it for the row that stays.
   */
  lemma SharedKeyIsLost(env: Env, c: Cidr, s: Sys, name: string, other: string, rows: seq<(string, PeerRow)>)
    requires PeersFit(c, s.db.peers) && name in s.db.peers && other in s.db.peers && name != other && name != ""
    requires SharedKey(env, s.db.peers[name], s.db.peers[other])
    requires Enumerates(rows, s.db.peers - {name})
    ensures var k := env.decodeKey(s.db.peers[name].publicKey).value;
            var (t, r) := DropPeerEffect(env, s, name);
            && r == NoContent && t.db.peers == s.db.peers - {name} && other in t.db.peers
            && k !in t.wg && k in RestorePeers(env, rows, map[])
  {
    hide KeysOf, ParseSlash32, AllocatableText, RestorePeers;
    FitParses(env, c, s.db.peers[other].assignedIP);
    assert other in s.db.peers - {name};
    var i :| 0 <= i < |rows| && rows[i].0 == other;
    RestoredRowHasKey(env, rows, i, env.decodeKey(s.db.peers[name].publicKey).value);
  }
}
