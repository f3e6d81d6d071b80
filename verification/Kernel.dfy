/**
  The two kernel tables that firewall/service.go and wireguard/device.go write: the bounded
  eBPF map, keyed by the twelve key bytes, and the device's peers, keyed by decoded public key.
 */
module Kernel {
  import opened Wrappers
  import opened Words
  import opened NetIP
  import opened RuleKeys
  import opened Tables

  type RuleMap = map<KeyBytes, U32>

  const MAX_ENTRIES := 1024

  /** What a peer may send from: the network it was given, unless another peer has taken it over. */
  type PeerTable = map<seq<Byte>, Option<Network>>

  // ----- eBPF map -----

  function RuleKeyBytes(env: Env, row: RuleRow): Option<KeyBytes> {
    match GetRuleKey(env, row.srcIP, row.dstIP, row.port, ToU8(row.proto))
    case Some(k) => Some(Encode(k))
    case None => None
  }

  /** AddPeerRule: None when the text has no key or the map is full. */
  function AddRule(env: Env, m: RuleMap, row: RuleRow): Option<RuleMap> {
    match RuleKeyBytes(env, row)
    case Some(k) => if k in m || |m| < MAX_ENTRIES then Some(m[k := 1]) else None
    case None => None
  }

  /** RemovePeerRule: None when the text has no key; an absent key is not an error. */
  function RemoveRule(env: Env, m: RuleMap, row: RuleRow): Option<RuleMap> {
    match RuleKeyBytes(env, row)
    case Some(k) => Some(m - {k})
    case None => None
  }

  /** The keys of the rows that have one. */
  function KeysOf(env: Env, rules: map<nat, RuleRow>): set<KeyBytes> {
    set i | i in rules && RuleKeyBytes(env, rules[i]).Some? :: RuleKeyBytes(env, rules[i]).value
  }

  // ----- WireGuard peers -----

  /** An allowed network belongs to one peer: assigning it takes it from any other. */
  function Assign(wg: PeerTable, key: seq<Byte>, net: Network): PeerTable {
    (map k | k in wg :: if wg[k] == Some(net) then None else wg[k])[key := Some(net)]
  }

  /** Device.AddPeer: None when the key or the address does not parse. */
  function AddPeer(env: Env, wg: PeerTable, publicKey: string, allowedIP: string): Option<PeerTable> {
    match (env.decodeKey(publicKey), ParseSlash32(env, allowedIP))
    case (Some(k), Some(net)) => Some(Assign(wg, k, net))
    case _ => None
  }

  /** Device.RemovePeer: None when the key does not parse; an absent peer is not an error. */
  function RemovePeer(env: Env, wg: PeerTable, publicKey: string): Option<PeerTable> {
    match env.decodeKey(publicKey)
    case Some(k) => Some(wg - {k})
    case None => None
  }

  // ----- Startup -----

  /** Rows in the order in which a query happened to return them. */
  ghost predicate Enumerates<K(!new), V>(rows: seq<(K, V)>, table: map<K, V>) {
    && (forall i :: 0 <= i < |rows| ==> rows[i].0 in table && table[rows[i].0] == rows[i].1)
    && (forall k :: k in table ==> exists i :: 0 <= i < |rows| && rows[i].0 == k)
    && (forall i, j :: 0 <= i < j < |rows| ==> rows[i].0 != rows[j].0)
  }

  /** The first restore loop: a peer that cannot be added is skipped. */
  function RestorePeers(env: Env, rows: seq<(string, PeerRow)>, wg: PeerTable): PeerTable {
    if rows == [] then wg
    else
      var rest := RestorePeers(env, rows[..|rows| - 1], wg);
      var row := rows[|rows| - 1].1;
      IfSome(AddPeer(env, rest, row.publicKey, row.assignedIP), rest)
  }

  /** The second restore loop: a rule that cannot be added is skipped. */
  function RestoreRules(env: Env, rows: seq<(nat, RuleRow)>, m: RuleMap): RuleMap {
    if rows == [] then m
    else
      var rest := RestoreRules(env, rows[..|rows| - 1], m);
      IfSome(AddRule(env, rest, rows[|rows| - 1].1), rest)
  }
}
