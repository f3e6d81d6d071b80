/**
  The three SQLite tables, and every SQL statement of internal/database.go as a function on
  them. Peers and device codes are keyed by their UNIQUE text column, because nothing reads
  their autoincrement id; rules are keyed by the id that the API exposes.
 */
module Tables {
  import opened Wrappers

  datatype PeerRow = PeerRow(publicKey: string, assignedIP: string)

  datatype Status = Pending | Approved | Denied

  /** `token` is None while access_token is NULL. */
  datatype CodeRow = CodeRow(userCode: string, expiresAt: int, status: Status, token: Option<string>)

  datatype RuleRow = RuleRow(srcIP: string, dstIP: string, port: int, proto: int)

  datatype Tables = Tables(
    peers: map<string, PeerRow>,
    codes: map<string, CodeRow>,
    rules: map<nat, RuleRow>,
    nextId: nat)

  const EMPTY := Tables(map[], map[], map[], 1)

  const DEVICE_CODE_EXPIRY := 600
  const DEVICE_CODE_POLL_INTERVAL := 5

  // ----- Constraints -----

  ghost predicate UniqueIPs(peers: map<string, PeerRow>) {
    forall n, m :: n in peers && m in peers && peers[n].assignedIP == peers[m].assignedIP ==> n == m
  }

  ghost predicate UniqueUserCodes(codes: map<string, CodeRow>) {
    forall d, e :: d in codes && e in codes && codes[d].userCode == codes[e].userCode ==> d == e
  }

  ghost predicate UniqueRules(rules: map<nat, RuleRow>) {
    forall i, j :: i in rules && j in rules && rules[i] == rules[j] ==> i == j
  }

  /** The UNIQUE constraints, and the autoincrement counter above every id in use. */
  ghost predicate Valid(t: Tables) {
    && UniqueIPs(t.peers)
    && UniqueUserCodes(t.codes)
    && UniqueRules(t.rules)
    && forall i :: i in t.rules ==> i < t.nextId
  }

  // ----- Peers -----

  predicate IPTaken(peers: map<string, PeerRow>, ip: string) {
    exists n :: n in peers && peers[n].assignedIP == ip
  }

  function UsedIPs(peers: map<string, PeerRow>): set<string> {
    set n | n in peers :: peers[n].assignedIP
  }

  /** INSERT INTO peers; None when a UNIQUE constraint fails. */
  function InsertPeer(t: Tables, name: string, row: PeerRow): Option<Tables> {
    if name in t.peers || IPTaken(t.peers, row.assignedIP) then None
    else Some(t.(peers := t.peers[name := row]))
  }

  /** DELETE FROM peers WHERE name = ? */
  function DeletePeerRow(t: Tables, name: string): Tables {
    t.(peers := t.peers - {name})
  }

  // ----- Device codes -----

  /** INSERT INTO device_codes */
  function InsertCode(t: Tables, deviceCode: string, row: CodeRow): Option<Tables> {
    if deviceCode in t.codes || (exists d :: d in t.codes && t.codes[d].userCode == row.userCode) then None
    else Some(t.(codes := t.codes[deviceCode := row]))
  }

  function CodeByDevice(t: Tables, deviceCode: string): Option<CodeRow> {
    if deviceCode in t.codes then Some(t.codes[deviceCode]) else None
  }

  ghost function CodeByUser(t: Tables, userCode: string): Option<CodeRow> {
    if d :| d in t.codes && t.codes[d].userCode == userCode then Some(t.codes[d]) else None
  }

  predicate PendingFor(row: CodeRow, userCode: string) {
    row.userCode == userCode && row.status == Pending
  }

  /** The condition under which ApproveDeviceCode affects a row. */
  predicate HasPending(t: Tables, userCode: string) {
    exists d :: d in t.codes && PendingFor(t.codes[d], userCode)
  }

  /** UPDATE device_codes SET status = 'approved', access_token = ? WHERE user_code = ? AND status = 'pending' */
  function Approve(t: Tables, userCode: string, token: string): Tables {
    t.(codes := map d | d in t.codes ::
      if PendingFor(t.codes[d], userCode) then t.codes[d].(status := Approved, token := Some(token)) else t.codes[d])
  }

  /** UPDATE device_codes SET status = 'denied' WHERE user_code = ? AND status = 'pending' */
  function Deny(t: Tables, userCode: string): Tables {
    t.(codes := map d | d in t.codes ::
      if PendingFor(t.codes[d], userCode) then t.codes[d].(status := Denied) else t.codes[d])
  }

  predicate Redeemable(row: CodeRow, token: string, now: int) {
    row.token == Some(token) && row.status == Approved && row.expiresAt > now
  }

  predicate HasRedeemable(t: Tables, token: string, now: int) {
    exists d :: d in t.codes && Redeemable(t.codes[d], token, now)
  }

  /** DELETE FROM device_codes WHERE access_token = ? AND status = 'approved' AND expires_at > ? */
  function Consume(t: Tables, token: string, now: int): Tables {
    t.(codes := map d | d in t.codes && !Redeemable(t.codes[d], token, now) :: t.codes[d])
  }

  /** DELETE FROM device_codes WHERE expires_at < ? */
  function CleanExpired(t: Tables, now: int): Tables {
    t.(codes := map d | d in t.codes && !(t.codes[d].expiresAt < now) :: t.codes[d])
  }

  // ----- Firewall rules -----

  /** INSERT INTO firewall_rules; the new row's id is the old nextId. */
  function InsertRule(t: Tables, row: RuleRow): Option<Tables> {
    if row in t.rules.Values then None
    else Some(t.(rules := t.rules[t.nextId := row], nextId := t.nextId + 1))
  }

  /** DELETE FROM firewall_rules WHERE id = ? */
  function DeleteRuleRow(t: Tables, id: int): Tables {
    t.(rules := map i | i in t.rules && i != id :: t.rules[i])
  }

  /** SELECT ... FROM firewall_rules WHERE src_ip = ? */
  function RulesFrom(t: Tables, srcIP: string): map<nat, RuleRow> {
    map i | i in t.rules && t.rules[i].srcIP == srcIP :: t.rules[i]
  }

  /** DELETE FROM firewall_rules WHERE src_ip = ? */
  function DeleteRulesFrom(t: Tables, srcIP: string): Tables {
    t.(rules := map i | i in t.rules && t.rules[i].srcIP != srcIP :: t.rules[i])
  }
}
