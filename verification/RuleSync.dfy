/** The eBPF map against the rules table: what each handler keeps, and exactly when. */
module RuleSync {
  import opened Wrappers
  import opened Words
  import opened NetIP
  import opened RuleKeys
  import opened Sets
  import opened Subnets
  import opened Tables
  import opened Kernel
  import opened Handlers
  import opened Allocator

  /** Every entry stands for some row. */
  ghost predicate Sound(env: Env, m: RuleMap, rules: map<nat, RuleRow>) { SoundFor(m, KeysOf(env, rules)) }

  ghost predicate SoundFor(m: RuleMap, keys: set<KeyBytes>) {
    m.Keys <= keys && |m| <= MAX_ENTRIES && forall k :: k in m ==> m[k] == 1
  }

  /** ... and every row that has a key has its entry. */
  ghost predicate Agrees(env: Env, m: RuleMap, rules: map<nat, RuleRow>) {
    Sound(env, m, rules) && m.Keys == KeysOf(env, rules)
  }

  ghost predicate SameKey(env: Env, r: RuleRow, q: RuleRow) {
    RuleKeyBytes(env, r).Some? && RuleKeyBytes(env, r) == RuleKeyBytes(env, q)
  }

  ghost predicate DistinctKeys(env: Env, rules: map<nat, RuleRow>) {
    forall i, j :: i in rules && j in rules && SameKey(env, rules[i], rules[j]) ==> i == j
  }

  /** No row on one side has the key of a row on the other. */
  ghost predicate NoSharedKey(env: Env, gone: map<nat, RuleRow>, kept: map<nat, RuleRow>) {
    forall i, j :: i in gone && j in kept ==> !SameKey(env, gone[i], kept[j])
  }

  /** The key of any row: there is one exactly if both addresses are IPv4, and these are its twelve bytes. */
  lemma KeyOfRow(env: Env, row: RuleRow)
    ensures var src, dst := ParseIP(env, row.srcIP), ParseIP(env, row.dstIP);
            RuleKeyBytes(env, row)
            == if src.IP4? && dst.IP4?
               then Some(src.bytes + dst.bytes + [row.port % 0x100, row.port / 0x100 % 0x100, row.proto % 0x100, 0])
               else None
  {
    var src, dst := ParseIP(env, row.srcIP), ParseIP(env, row.dstIP);
    if src.IP4? && dst.IP4? {
      StoredKeyBytes(src.bytes, dst.bytes, row.port, ToU8(row.proto));
    }
    hide ParseIP, Encode, LoadLE32, ToU16;
  }

  // ----- KeysOf and table updates -----

  lemma KeyMember(env: Env, rules: map<nat, RuleRow>, k: KeyBytes)
    ensures k in KeysOf(env, rules) <==> exists i :: i in rules && RuleKeyBytes(env, rules[i]) == Some(k)
  {
  }

  lemma KeysAfterInsert(env: Env, rules: map<nat, RuleRow>, id: nat, row: RuleRow)
    requires id !in rules
    ensures KeysOf(env, rules[id := row])
         == KeysOf(env, rules) + (match RuleKeyBytes(env, row) case Some(k) => {k} case None => {})
  {
    hide RuleKeyBytes;
    var after := rules[id := row];
    forall k ensures k in KeysOf(env, after) <==> k in KeysOf(env, rules) || RuleKeyBytes(env, row) == Some(k) {
      KeyMember(env, rules, k);
      KeyMember(env, after, k);
      if i :| i in rules && RuleKeyBytes(env, rules[i]) == Some(k) {
        assert i in after && after[i] == rules[i];
      }
      if RuleKeyBytes(env, row) == Some(k) {
        assert id in after && after[id] == row;
      }
    }
  }

  /** A key goes with the rows `gone` unless one of the rows `kept` has it as well. */
  lemma KeysAfterDelete(env: Env, rules: map<nat, RuleRow>, gone: map<nat, RuleRow>, kept: map<nat, RuleRow>)
    requires rules.Keys == gone.Keys + kept.Keys
    requires forall i :: i in gone ==> gone[i] == rules[i]
    requires forall i :: i in kept ==> kept[i] == rules[i]
    ensures KeysOf(env, rules) == KeysOf(env, gone) + KeysOf(env, kept)
    ensures KeysOf(env, gone) !! KeysOf(env, kept) <==> NoSharedKey(env, gone, kept)
  {
    hide RuleKeyBytes;
    forall k ensures k in KeysOf(env, rules) <==> k in KeysOf(env, gone) || k in KeysOf(env, kept) {
      KeyMember(env, rules, k);
      KeyMember(env, gone, k);
      KeyMember(env, kept, k);
      if i :| i in rules && RuleKeyBytes(env, rules[i]) == Some(k) {
        assert i in gone || i in kept;
      }
      if i :| i in gone && RuleKeyBytes(env, gone[i]) == Some(k) {
        assert i in rules;
      }
      if i :| i in kept && RuleKeyBytes(env, kept[i]) == Some(k) {
        assert i in rules;
      }
    }
    if i, j :| i in gone && j in kept && SameKey(env, gone[i], kept[j]) {
      var k := RuleKeyBytes(env, gone[i]).value;
      assert k in KeysOf(env, gone) && k in KeysOf(env, kept);
    }
    if k :| k in KeysOf(env, gone) && k in KeysOf(env, kept) {
      KeyMember(env, gone, k);
      KeyMember(env, kept, k);
      var i :| i in gone && RuleKeyBytes(env, gone[i]) == Some(k);
      var j :| j in kept && RuleKeyBytes(env, kept[j]) == Some(k);
      assert SameKey(env, gone[i], kept[j]);
    }
  }

  lemma MapSize(m: RuleMap)
    ensures |m| == |m.Keys|
  {
  }

  // ----- Deleting rows and their keys -----

  /** Removing the keys of the deleted rows keeps soundness; agreement survives iff no kept row shared one of them. */
  lemma SyncedDelete(env: Env, m: RuleMap, rules: map<nat, RuleRow>, gone: map<nat, RuleRow>, kept: map<nat, RuleRow>)
    requires Sound(env, m, rules)
    requires rules.Keys == gone.Keys + kept.Keys
    requires forall i :: i in gone ==> gone[i] == rules[i]
    requires forall i :: i in kept ==> kept[i] == rules[i]
    ensures Sound(env, m - KeysOf(env, gone), kept)
    ensures Agrees(env, m, rules) ==>
              (Agrees(env, m - KeysOf(env, gone), kept) <==> NoSharedKey(env, gone, kept))
  {
    hide NoSharedKey, KeysOf;
    KeysAfterDelete(env, rules, gone, kept);
    var g, k, after := KeysOf(env, gone), KeysOf(env, kept), m - KeysOf(env, gone);
    assert after.Keys == m.Keys - g;
    WithoutSome(m.Keys, g, k);
    MapSize(after);
    MapSize(m);
  }

  lemma WithoutSome<T>(m: set<T>, g: set<T>, k: set<T>)
    requires m <= g + k
    ensures m - g <= k && |m - g| <= |m|
    ensures m == g + k ==> (m - g == k <==> g !! k)
  {
  }

  function Only(rules: map<nat, RuleRow>, id: nat): map<nat, RuleRow>
    requires id in rules
  {
    map[id := rules[id]]
  }

  lemma KeysOfOne(env: Env, rules: map<nat, RuleRow>, id: nat)
    requires id in rules
    ensures KeysOf(env, Only(rules, id)) == (match RuleKeyBytes(env, rules[id]) case Some(k) => {k} case None => {})
  {
    hide RuleKeyBytes;
    assert KeysOf(env, map[]) == {};
    assert Only(rules, id) == map[][id := rules[id]];
    KeysAfterInsert(env, map[], id, rules[id]);
  }

  /** What DeleteRule's success means for the map: the row's key, if it has one, is gone from it. */
  lemma UnmapIsRemoval(env: Env, m: RuleMap, rules: map<nat, RuleRow>, id: nat)
    requires id in rules && Unmap(env, m, rules[id]).Some?
    ensures Unmap(env, m, rules[id]).value == m - KeysOf(env, Only(rules, id))
  {
    KeysOfOne(env, rules, id);
    var row := rules[id];
    if RuleKeyBytes(env, row).None? {
      assert m - {} == m;
    }
    NoKeyWhenInvalid(env, row);
    hide RuleKeyBytes;
  }

  lemma NoKeyWhenInvalid(env: Env, row: RuleRow)
    ensures ParseIP(env, row.srcIP).Invalid? || ParseIP(env, row.dstIP).Invalid? ==> RuleKeyBytes(env, row).None?
  {
  }

  /**
    DeleteRule keeps every entry justified. Agreement survives a successful call exactly when no
    other row has the deleted row's key, such as a row whose port differs by 65536.
   */
  lemma DropRuleKeeps(env: Env, s: Sys, id: int)
    requires Sound(env, s.xdp, s.db.rules)
    ensures var (t, r) := DropRuleEffect(env, s, id);
            && Sound(env, t.xdp, t.db.rules)
            && (r != NoContent ==> t == s)
            && (r == NoContent && Agrees(env, s.xdp, s.db.rules) ==>
                 (Agrees(env, t.xdp, t.db.rules) <==> NoSharedKey(env, Only(s.db.rules, id), s.db.rules - {id})))
  {
    hide RuleKeyBytes, KeysOf, Unmap, NoSharedKey, Sound, Agrees;
    var (t, r) := DropRuleEffect(env, s, id);
    if r == NoContent {
      UnmapIsRemoval(env, s.xdp, s.db.rules, id);
      assert t.db.rules == s.db.rules - {id};
      SyncedDelete(env, s.xdp, s.db.rules, Only(s.db.rules, id), t.db.rules);
    }
  }

  /**
    DeletePeer keeps every entry justified. Agreement survives a successful call exactly when no
    surviving row has the key of a deleted one, such as a row spelling the address differently.
   */
  lemma DropPeerKeeps(env: Env, s: Sys, name: string)
    requires Sound(env, s.xdp, s.db.rules)
    ensures var (t, r) := DropPeerEffect(env, s, name);
            && Sound(env, t.xdp, t.db.rules)
            && (r != NoContent ==> t == s)
            && (r == NoContent && Agrees(env, s.xdp, s.db.rules) ==>
                 (Agrees(env, t.xdp, t.db.rules)
                  <==> NoSharedKey(env, RulesFrom(s.db, s.db.peers[name].assignedIP), t.db.rules)))
  {
    hide KeysOf, RemovePeer, NoSharedKey, Sound, Agrees;
    var (t, r) := DropPeerEffect(env, s, name);
    if r == NoContent {
      SyncedDelete(env, s.xdp, s.db.rules, RulesFrom(s.db, s.db.peers[name].assignedIP), t.db.rules);
    }
  }

  /** No two rows with one key: then both deletions keep agreement. */
  lemma DistinctDeletes(env: Env, c: Cidr, now: int, s: Sys, req: Request)
    requires req.DropRule? || req.DropPeer?
    requires Agrees(env, s.xdp, s.db.rules) && DistinctKeys(env, s.db.rules)
    ensures var t := Effect(env, c, now, s, req).0; Agrees(env, t.xdp, t.db.rules)
  {
    hide KeysOf, SameKey, Sound, RemovePeer, Unmap;
    if req.DropRule? {
      DropRuleKeeps(env, s, req.id);
    } else {
      DropPeerKeeps(env, s, req.name);
    }
  }

  /** DeleteRule succeeds on a stored rule exactly if it has a key or an address that does not parse. */
  lemma DropRuleSucceedsIff(env: Env, s: Sys, id: nat)
    requires id in s.db.rules
    ensures var (t, r) := DropRuleEffect(env, s, id);
            && (r == NoContent <==> Deletable(env, s.db.rules[id]))
            && (id !in t.db.rules <==> r == NoContent)
            && (r != NoContent ==> r == ServerError && t == s)
  {
    hide ParseIP, RuleKeyBytes;
  }

  // ----- Creating -----

  /** A map that stands for all rows, or is full. */
  ghost predicate Restored(env: Env, m: RuleMap, rules: map<nat, RuleRow>) {
    Sound(env, m, rules) && (m.Keys == KeysOf(env, rules) || |m| == MAX_ENTRIES)
  }

  predicate HasRoomFor(env: Env, m: RuleMap, row: RuleRow) {
    var k := RuleKeyBytes(env, row);
    k.None? || k.value in m || |m| < MAX_ENTRIES
  }

  /** A row and its key, as far as the key fits. */
  lemma SyncedInsert(env: Env, m: RuleMap, rules: map<nat, RuleRow>, id: nat, row: RuleRow)
    requires Sound(env, m, rules) && id !in rules
    ensures var m', rules' := IfSome(AddRule(env, m, row), m), rules[id := row];
            && Sound(env, m', rules')
            && (Restored(env, m, rules) ==> Restored(env, m', rules'))
            && (Agrees(env, m, rules) ==> (Agrees(env, m', rules') <==> HasRoomFor(env, m, row)))
  {
    hide RuleKeyBytes, KeysOf, SoundFor;
    KeysAfterInsert(env, rules, id, row);
    match RuleKeyBytes(env, row)
    case None => assert KeysOf(env, rules) + {} == KeysOf(env, rules);
    case Some(k) => InsertKey(m, KeysOf(env, rules), k);
  }

  lemma InsertKey(m: RuleMap, keys: set<KeyBytes>, k: KeyBytes)
    requires SoundFor(m, keys)
    ensures var m', keys' := if k in m || |m| < MAX_ENTRIES then m[k := 1] else m, keys + {k};
            && SoundFor(m', keys')
            && (m.Keys == keys || |m| == MAX_ENTRIES ==> m'.Keys == keys' || |m'| == MAX_ENTRIES)
            && (m.Keys == keys ==> (m'.Keys == keys' <==> k in m || |m| < MAX_ENTRIES))
  {
  }

  /**
    CreateRule keeps every entry justified. Agreement survives an insertion exactly when the row
    has no key, its key is there already, or the map has room; the row stays in any case.
   */
  lemma CreateRuleKeeps(env: Env, s: Sys, rule: RuleRow)
    requires Sound(env, s.xdp, s.db.rules) && Valid(s.db)
    ensures var (t, r) := CreateRuleEffect(env, s, rule);
            && Sound(env, t.xdp, t.db.rules)
            && (t.db == s.db ==> t == s)
            && (t.db != s.db && Agrees(env, s.xdp, s.db.rules) ==>
                 (Agrees(env, t.xdp, t.db.rules) <==> HasRoomFor(env, s.xdp, Normalized(rule))))
  {
    hide AddRule, Acceptable, Normalized, Sound, Agrees, HasRoomFor;
    var (t, r) := CreateRuleEffect(env, s, rule);
    SyncedInsert(env, s.xdp, s.db.rules, s.db.nextId, Normalized(rule));
  }

  /**
    CreateRule stores every acceptable rule that is new, and answers with the rule exactly if the
    map took its key. A rule without a key, or one that finds the map full, is stored although the
    answer is an error.
   */
  lemma StoredThoughRefused(env: Env, s: Sys, rule: RuleRow)
    ensures var (t, r) := CreateRuleEffect(env, s, rule);
            var row := Normalized(rule);
            var k := RuleKeyBytes(env, row);
            && (t.db != s.db <==> Acceptable(env, rule) && row !in s.db.rules.Values)
            && (t.db != s.db ==>
                 && t.db.rules == s.db.rules[s.db.nextId := row]
                 && (r == RuleCreated(s.db.nextId, row) <==> k.Some? && HasRoomFor(env, s.xdp, row))
                 && (r != RuleCreated(s.db.nextId, row) ==> r == ServerError && t.xdp == s.xdp))
            && (t.db == s.db ==> t == s && (r == BadRequest || r == ServerError))
  {
    hide ParseIP, RuleKeyBytes, Acceptable, Normalized;
    assert InsertRule(s.db, Normalized(rule)).Some? ==>
             InsertRule(s.db, Normalized(rule)).value.nextId != s.db.nextId;
  }

  // ----- Every handler -----

  /** Whatever is requested, each entry of the map is justified by a row afterwards. */
  lemma EffectKeepsSound(env: Env, c: Cidr, now: int, s: Sys, req: Request)
    requires Sound(env, s.xdp, s.db.rules) && Valid(s.db)
    ensures var t := Effect(env, c, now, s, req).0; Sound(env, t.xdp, t.db.rules)
  {
    hide Sound, Agrees, Valid, CreateRuleEffect, DropRuleEffect, DropPeerEffect, JoinEffect, HasRoomFor, NoSharedKey;
    if req.CreateRule? {
      CreateRuleKeeps(env, s, req.rule);
    } else if req.DropRule? {
      DropRuleKeeps(env, s, req.id);
    } else if req.DropPeer? {
      DropPeerKeeps(env, s, req.name);
    } else {
      OthersKeepRules(env, c, now, s, req);
      hide Effect;
    }
  }

  lemma OthersKeepRules(env: Env, c: Cidr, now: int, s: Sys, req: Request)
    requires !req.CreateRule? && !req.DropRule? && !req.DropPeer?
    ensures var t := Effect(env, c, now, s, req).0;
            t.xdp == s.xdp && t.db.rules == s.db.rules && t.db.nextId == s.db.nextId
  {
    if req.Join? {
      JoinKeepsRules(env, c, now, s, req.token, req.publicKey, req.name);
    } else {
      hide HasPending, CodeByUser, VerifyRefusal, TokenResponse, ViewResponse;
    }
  }

  lemma JoinKeepsRules(env: Env, c: Cidr, now: int, s: Sys, token: string, publicKey: string, name: string)
    ensures var t := JoinEffect(env, c, now, s, token, publicKey, name).0;
            t.xdp == s.xdp && t.db.rules == s.db.rules && t.db.nextId == s.db.nextId
  {
    hide Allocate, AddPeer, HasRedeemable, IPTaken;
  }

  // ----- Startup -----

  lemma {:induction false} RestoreKeepsRestored(env: Env, rows: seq<(nat, RuleRow)>, rules: map<nat, RuleRow>)
    requires Enumerates(rows, rules)
    ensures Restored(env, RestoreRules(env, rows, map[]), rules)
  {
    if rows == [] {
      assert rules == map[];
    } else {
      hide AddRule, Restored, Agrees;
      var n := |rows| - 1;
      var (id, row) := rows[n];
      EnumeratesPrefix(rows, rules);
      RestoreKeepsRestored(env, rows[..n], rules - {id});
      hide Enumerates, Sound;
      RestoredIsSound(env, RestoreRules(env, rows[..n], map[]), rules - {id});
      SyncedInsert(env, RestoreRules(env, rows[..n], map[]), rules - {id}, id, row);
    }
  }

  lemma RestoredIsSound(env: Env, m: RuleMap, rules: map<nat, RuleRow>)
    requires Restored(env, m, rules)
    ensures Sound(env, m, rules)
  {
  }

  lemma EnumeratesPrefix<K(!new), V>(rows: seq<(K, V)>, table: map<K, V>)
    requires rows != [] && Enumerates(rows, table)
    ensures var (k, v) := rows[|rows| - 1];
            k in table && table[k] == v && table == (table - {k})[k := v] && Enumerates(rows[..|rows| - 1], table - {k})
  {
  }

  /**
    In whatever order the rows come, startup gives a map whose entries are all justified, and one
    that agrees with the table exactly when the table has at most 1024 distinct keys.
   */
  lemma RestoreAgreesIff(env: Env, rows: seq<(nat, RuleRow)>, rules: map<nat, RuleRow>)
    requires Enumerates(rows, rules)
    ensures var m := RestoreRules(env, rows, map[]);
            && Sound(env, m, rules)
            && (Agrees(env, m, rules) <==> |KeysOf(env, rules)| <= MAX_ENTRIES)
            && (|KeysOf(env, rules)| > MAX_ENTRIES ==> |m| == MAX_ENTRIES)
  {
    RestoreKeepsRestored(env, rows, rules);
    hide KeysOf;
    var m := RestoreRules(env, rows, map[]);
    MapSize(m);
    if |KeysOf(env, rules)| <= MAX_ENTRIES && |m| == MAX_ENTRIES {
      SubsetSize(m.Keys, KeysOf(env, rules));
      SameSize(m.Keys, KeysOf(env, rules));
    }
  }

  /** Agreement determines the map. */
  lemma AgreementIsUnique(env: Env, m: RuleMap, m': RuleMap, rules: map<nat, RuleRow>)
    requires Agrees(env, m, rules) && Agrees(env, m', rules)
    ensures m == m'
  {
  }
}
